/** Standard Base64 with `=` padding (RFC 4648, section 4), as Node.js
    `Buffer.toString('base64')` produces it at index.js:56, and a strict decoder
    that accepts exactly the texts the encoder produces. */
module Base64 {
  import opened Common

  const Pad: char := '='

  predicate IsSextet(v: int)
  {
    0 <= v < 64
  }

  /** The RFC 4648 alphabet: A-Z, a-z, 0-9, '+', '/'. */
  function SextetChar(v: int): (c: char)
    requires IsSextet(v)
    ensures c != Pad
  {
    if v < 26 then (('A' as int) + v) as char
    else if v < 52 then (('a' as int) + (v - 26)) as char
    else if v < 62 then (('0' as int) + (v - 52)) as char
    else if v == 62 then '+'
    else '/'
  }

  /** The value of an alphabet character; None for anything outside the alphabet. */
  function SextetValue(c: char): Option<int>
  {
    if 'A' <= c <= 'Z' then Some((c as int) - ('A' as int))
    else if 'a' <= c <= 'z' then Some((c as int) - ('a' as int) + 26)
    else if '0' <= c <= '9' then Some((c as int) - ('0' as int) + 52)
    else if c == '+' then Some(62)
    else if c == '/' then Some(63)
    else None
  }

  lemma SextetValueOfChar(v: int)
    requires IsSextet(v)
    ensures SextetValue(SextetChar(v)) == Some(v)
  {
  }

  lemma SextetCharOfValue(c: char)
    requires SextetValue(c).Some?
    ensures IsSextet(SextetValue(c).value) && SextetChar(SextetValue(c).value) == c
  {
  }

  /** Three bytes as four alphabet characters. */
  function EncodeTriple(b0: Byte, b1: Byte, b2: Byte): string
  {
    [ SextetChar(b0 / 4),
      SextetChar((b0 % 4) * 16 + b1 / 16),
      SextetChar((b1 % 16) * 4 + b2 / 64),
      SextetChar(b2 % 64) ]
  }

  /** A final single byte: two characters (the byte's bits followed by four zero
      bits) and `==`. */
  function EncodeOne(b0: Byte): string
  {
    [SextetChar(b0 / 4), SextetChar((b0 % 4) * 16), Pad, Pad]
  }

  /** A final pair of bytes: three characters (the bits followed by two zero bits)
      and `=`. */
  function EncodeTwo(b0: Byte, b1: Byte): string
  {
    [SextetChar(b0 / 4), SextetChar((b0 % 4) * 16 + b1 / 16), SextetChar((b1 % 16) * 4), Pad]
  }

  /** The encoding of an input: three bytes at a time, the last one or two bytes
      padded with `==` or `=`. */
  function Encode(bytes: seq<Byte>): (s: string)
    ensures |s| == 4 * ((|bytes| + 2) / 3)
    decreases |bytes|
  {
    if |bytes| == 0 then []
    else if |bytes| == 1 then EncodeOne(bytes[0])
    else if |bytes| == 2 then EncodeTwo(bytes[0], bytes[1])
    else
      EncodeTriple(bytes[0], bytes[1], bytes[2]) + Encode(bytes[3..])
  }

  /** Four alphabet characters back to three bytes. */
  function DecodeQuad(q: string): Option<seq<Byte>>
    requires |q| == 4
  {
    match (SextetValue(q[0]), SextetValue(q[1]), SextetValue(q[2]), SextetValue(q[3]))
    case (Some(c0), Some(c1), Some(c2), Some(c3)) =>
      Some([c0 * 4 + c1 / 16, (c1 % 16) * 16 + c2 / 4, (c2 % 4) * 64 + c3])
    case _ => None
  }

  /** The last group: "xx==" gives one byte, "xxx=" two, "xxxx" three. The bits
      that fall off the end must be zero, as they are in anything Encode writes. */
  function DecodeLast(q: string): Option<seq<Byte>>
    requires |q| == 4
  {
    if q[2] == Pad && q[3] == Pad then DecodeOne(q)
    else if q[3] == Pad then DecodeTwo(q)
    else DecodeQuad(q)
  }

  function DecodeOne(q: string): Option<seq<Byte>>
    requires |q| == 4
  {
    match (SextetValue(q[0]), SextetValue(q[1]))
    case (Some(c0), Some(c1)) =>
      if c1 % 16 == 0 then Some([c0 * 4 + c1 / 16]) else None
    case _ => None
  }

  function DecodeTwo(q: string): Option<seq<Byte>>
    requires |q| == 4
  {
    match (SextetValue(q[0]), SextetValue(q[1]), SextetValue(q[2]))
    case (Some(c0), Some(c1), Some(c2)) =>
      if c2 % 4 == 0 then Some([c0 * 4 + c1 / 16, (c1 % 16) * 16 + c2 / 4]) else None
    case _ => None
  }

  /** Strict RFC 4648 decoding: groups of four, padding only in the last group. */
  function Decode(s: string): Option<seq<Byte>>
    decreases |s|
  {
    if s == [] then Some([])
    else if |s| < 4 then None
    else if |s| == 4 then DecodeLast(s)
    else
      match (DecodeQuad(s[..4]), Decode(s[4..]))
      case (Some(b), Some(rest)) => Some(b + rest)
      case _ => None
  }

  /** The bit regrouping of one group, bytes to sextets and back. */
  lemma RegroupBytes(b0: Byte, b1: Byte, b2: Byte)
    ensures var c0, c1, c2, c3 := b0 / 4, (b0 % 4) * 16 + b1 / 16, (b1 % 16) * 4 + b2 / 64, b2 % 64;
      IsSextet(c0) && IsSextet(c1) && IsSextet(c2) && IsSextet(c3) &&
      c0 * 4 + c1 / 16 == b0 && (c1 % 16) * 16 + c2 / 4 == b1 && (c2 % 4) * 64 + c3 == b2
  {
    var c1 := (b0 % 4) * 16 + b1 / 16;
    assert c1 / 16 == b0 % 4 && c1 % 16 == b1 / 16;
    var c2 := (b1 % 16) * 4 + b2 / 64;
    assert c2 / 4 == b1 % 16 && c2 % 4 == b2 / 64;
  }

  /** The bit regrouping of one group, sextets to bytes and back. */
  lemma RegroupSextets(c0: int, c1: int, c2: int, c3: int)
    requires IsSextet(c0) && IsSextet(c1) && IsSextet(c2) && IsSextet(c3)
    ensures var b0, b1, b2 := c0 * 4 + c1 / 16, (c1 % 16) * 16 + c2 / 4, (c2 % 4) * 64 + c3;
      0 <= b0 < 256 && 0 <= b1 < 256 && 0 <= b2 < 256 &&
      b0 / 4 == c0 && (b0 % 4) * 16 + b1 / 16 == c1 && (b1 % 16) * 4 + b2 / 64 == c2 && b2 % 64 == c3
  {
    var b0 := c0 * 4 + c1 / 16;
    assert b0 / 4 == c0 && b0 % 4 == c1 / 16;
    var b1 := (c1 % 16) * 16 + c2 / 4;
    assert b1 / 16 == c1 % 16 && b1 % 16 == c2 / 4;
    var b2 := (c2 % 4) * 64 + c3;
    assert b2 / 64 == c2 % 4 && b2 % 64 == c3;
  }

  lemma TripleRoundTrip(b0: Byte, b1: Byte, b2: Byte)
    ensures DecodeQuad(EncodeTriple(b0, b1, b2)) == Some([b0, b1, b2])
  {
    var c0, c1, c2, c3 := b0 / 4, (b0 % 4) * 16 + b1 / 16, (b1 % 16) * 4 + b2 / 64, b2 % 64;
    RegroupBytes(b0, b1, b2);
    DecodeChars(c0, c1, c2, c3);
  }

  /** Four alphabet characters decode to the bytes their sextets spell. */
  lemma DecodeChars(c0: int, c1: int, c2: int, c3: int)
    requires IsSextet(c0) && IsSextet(c1) && IsSextet(c2) && IsSextet(c3)
    ensures DecodeQuad([SextetChar(c0), SextetChar(c1), SextetChar(c2), SextetChar(c3)])
         == Some([c0 * 4 + c1 / 16, (c1 % 16) * 16 + c2 / 4, (c2 % 4) * 64 + c3])
  {
    SextetValueOfChar(c0);
    SextetValueOfChar(c1);
    SextetValueOfChar(c2);
    SextetValueOfChar(c3);
  }

  lemma QuadRoundTrip(q: string)
    requires |q| == 4 && DecodeQuad(q).Some?
    ensures var b := DecodeQuad(q).value; |b| == 3 && EncodeTriple(b[0], b[1], b[2]) == q
  {
    var c0, c1, c2, c3 := SextetValue(q[0]).value, SextetValue(q[1]).value, SextetValue(q[2]).value, SextetValue(q[3]).value;
    SextetCharOfValue(q[0]);
    SextetCharOfValue(q[1]);
    SextetCharOfValue(q[2]);
    SextetCharOfValue(q[3]);
    RegroupSextets(c0, c1, c2, c3);
    var b0, b1, b2 := c0 * 4 + c1 / 16, (c1 % 16) * 16 + c2 / 4, (c2 % 4) * 64 + c3;
    assert DecodeQuad(q).value == [b0, b1, b2];
    assert EncodeTriple(b0, b1, b2) == [SextetChar(c0), SextetChar(c1), SextetChar(c2), SextetChar(c3)];
  }

  lemma OneRoundTrip(b0: Byte)
    ensures DecodeLast(EncodeOne(b0)) == Some([b0])
  {
    RegroupBytes(b0, 0, 0);
    SextetValueOfChar(b0 / 4);
    SextetValueOfChar((b0 % 4) * 16);
  }

  lemma TwoRoundTrip(b0: Byte, b1: Byte)
    ensures DecodeLast(EncodeTwo(b0, b1)) == Some([b0, b1])
  {
    var q := EncodeTwo(b0, b1);
    RegroupBytes(b0, b1, 0);
    SextetValueOfChar(b0 / 4);
    SextetValueOfChar((b0 % 4) * 16 + b1 / 16);
    SextetValueOfChar((b1 % 16) * 4);
    assert q[2] != Pad && q[3] == Pad;
    assert DecodeTwo(q) == Some([b0, b1]);
  }

  lemma OneInverse(q: string)
    requires |q| == 4 && q[2] == Pad && q[3] == Pad && DecodeOne(q).Some?
    ensures var b := DecodeOne(q).value; |b| == 1 && EncodeOne(b[0]) == q
  {
    var c0, c1 := SextetValue(q[0]).value, SextetValue(q[1]).value;
    SextetCharOfValue(q[0]);
    SextetCharOfValue(q[1]);
    RegroupSextets(c0, c1, 0, 0);
  }

  lemma TwoInverse(q: string)
    requires |q| == 4 && q[3] == Pad && DecodeTwo(q).Some?
    ensures var b := DecodeTwo(q).value; |b| == 2 && EncodeTwo(b[0], b[1]) == q
  {
    var c0, c1, c2 := SextetValue(q[0]).value, SextetValue(q[1]).value, SextetValue(q[2]).value;
    SextetCharOfValue(q[0]);
    SextetCharOfValue(q[1]);
    SextetCharOfValue(q[2]);
    RegroupSextets(c0, c1, c2, 0);
  }

  /** The first group of an input of at least three bytes. */
  lemma EncodeUnfold(bytes: seq<Byte>)
    requires |bytes| >= 3
    ensures Encode(bytes) == EncodeTriple(bytes[0], bytes[1], bytes[2]) + Encode(bytes[3..])
  {
  }

  lemma DecodeEncodeThree(bytes: seq<Byte>)
    requires |bytes| == 3
    ensures Decode(Encode(bytes)) == Some(bytes)
  {
    var t := EncodeTriple(bytes[0], bytes[1], bytes[2]);
    TripleRoundTrip(bytes[0], bytes[1], bytes[2]);
    EncodeUnfold(bytes);
    assert Encode(bytes[3..]) == [];
    assert Encode(bytes) == t;
    assert t[3] != Pad;
    assert DecodeLast(t) == DecodeQuad(t);
    assert bytes == [bytes[0], bytes[1], bytes[2]];
  }

  /** The test vectors of RFC 4648, section 10, for "f", "fo" and "foo". Together
      with the longer ones below they pin the alphabet and the bit order, which the
      round trips alone do not. */
  lemma EncodeShortTestVectors()
    ensures Encode([102]) == "Zg=="
    ensures Encode([102, 111]) == "Zm8="
    ensures Encode([102, 111, 111]) == "Zm9v"
  {
    EncodeUnfold([102, 111, 111]);
    assert EncodeTriple(102, 111, 111) == "Zm9v";
  }

  /** The test vectors of RFC 4648, section 10, for "foob", "fooba" and "foobar". */
  lemma EncodeLongTestVectors()
    ensures Encode([102, 111, 111, 98]) == "Zm9vYg=="
    ensures Encode([102, 111, 111, 98, 97]) == "Zm9vYmE="
    ensures Encode([102, 111, 111, 98, 97, 114]) == "Zm9vYmFy"
  {
    EncodeShortTestVectors();
    FooPrefix([98]);
    FooPrefix([98, 97]);
    FooPrefix([98, 97, 114]);
    EncodeUnfold([98, 97, 114]);
    assert EncodeTriple(98, 97, 114) == "YmFy";
  }

  lemma FooPrefix(rest: seq<Byte>)
    ensures Encode([102, 111, 111] + rest) == EncodeTriple(102, 111, 111) + Encode(rest)
  {
    var bytes := [102, 111, 111] + rest;
    EncodeUnfold(bytes);
    assert bytes[3..] == rest;
  }

  /** Decoding an encoding gives the bytes back. */
  lemma {:induction false} DecodeEncode(bytes: seq<Byte>)
    ensures Decode(Encode(bytes)) == Some(bytes)
    decreases |bytes|
  {
    if |bytes| <= 3 {
      DecodeEncodeShort(bytes);
    } else {
      DecodeEncode(bytes[3..]);
      DecodeEncodeStep(bytes);
    }
  }

  lemma DecodeEncodeShort(bytes: seq<Byte>)
    requires |bytes| <= 3
    ensures Decode(Encode(bytes)) == Some(bytes)
  {
    if |bytes| == 1 {
      DecodeEncodeOne(bytes);
    } else if |bytes| == 2 {
      DecodeEncodeTwo(bytes);
    } else if |bytes| == 3 {
      DecodeEncodeThree(bytes);
    }
  }

  lemma DecodeEncodeOne(bytes: seq<Byte>)
    requires |bytes| == 1
    ensures Decode(Encode(bytes)) == Some(bytes)
  {
    OneRoundTrip(bytes[0]);
    assert bytes == [bytes[0]];
  }

  lemma DecodeEncodeTwo(bytes: seq<Byte>)
    requires |bytes| == 2
    ensures Decode(Encode(bytes)) == Some(bytes)
  {
    TwoRoundTrip(bytes[0], bytes[1]);
    assert bytes == [bytes[0], bytes[1]];
  }

  lemma DecodeEncodeStep(bytes: seq<Byte>)
    requires |bytes| > 3
    requires Decode(Encode(bytes[3..])) == Some(bytes[3..])
    ensures Decode(Encode(bytes)) == Some(bytes)
  {
    HeadThree(bytes);
    EncodeNonEmpty(bytes[3..]);
    TripleRoundTrip(bytes[0], bytes[1], bytes[2]);
    EncodeUnfold(bytes);
    DecodeGroups(Encode(bytes), EncodeTriple(bytes[0], bytes[1], bytes[2]), Encode(bytes[3..]),
                 [bytes[0], bytes[1], bytes[2]], bytes[3..], bytes);
  }

  lemma HeadThree(bytes: seq<Byte>)
    requires |bytes| >= 3
    ensures [bytes[0], bytes[1], bytes[2]] + bytes[3..] == bytes
  {
  }

  /** A non-empty input encodes to at least one group. */
  lemma EncodeNonEmpty(bytes: seq<Byte>)
    requires |bytes| >= 1
    ensures |Encode(bytes)| >= 4
  {
  }

  /** A full group in front of a decodable text of at least one group. */
  lemma DecodeGroups(s: string, t: string, r: string, head: seq<Byte>, rest: seq<Byte>, whole: seq<Byte>)
    requires s == t + r && |t| == 4 && |r| >= 4
    requires DecodeQuad(t) == Some(head) && Decode(r) == Some(rest) && whole == head + rest
    ensures Decode(s) == Some(whole)
  {
    assert s[..4] == t && s[4..] == r;
  }

  /** Every text the strict decoder accepts is the encoding of what it decodes to,
      so Encode and Decode are inverse bijections between byte strings and
      canonical Base64 texts. */
  lemma {:induction false} EncodeDecode(s: string)
    requires Decode(s).Some?
    ensures Encode(Decode(s).value) == s
    decreases |s|
  {
    if |s| == 4 {
      if s[2] == Pad && s[3] == Pad {
        OneInverse(s);
      } else if s[3] == Pad {
        TwoInverse(s);
      } else {
        QuadRoundTrip(s);
      }
    } else if |s| > 4 {
      var b := DecodeQuad(s[..4]).value;
      var rest := Decode(s[4..]).value;
      QuadRoundTrip(s[..4]);
      EncodeDecode(s[4..]);
      assert (b + rest)[..3] == b;
      assert (b + rest)[3..] == rest;
      assert s == s[..4] + s[4..];
    }
  }

  lemma EncodeUnfoldAppend(a: seq<Byte>, b: seq<Byte>)
    requires |a| >= 3
    ensures Encode(a + b) == EncodeTriple(a[0], a[1], a[2]) + Encode(a[3..] + b)
  {
    var ab := a + b;
    assert ab[3..] == a[3..] + b;
    assert ab[0] == a[0] && ab[1] == a[1] && ab[2] == a[2];
    EncodeUnfold(ab);
  }

  /** From ab = t + xb, a = t + x and xb = x + y, conclude ab = a + y. */
  lemma Regroup(ab: string, a: string, t: string, x: string, xb: string, y: string)
    requires ab == t + xb && a == t + x && xb == x + y
    ensures ab == a + y
  {
    assert t + (x + y) == (t + x) + y;
  }

  /** Encoding distributes over concatenation at a three-byte boundary. */
  lemma {:induction false} EncodeAppend(a: seq<Byte>, b: seq<Byte>)
    requires |a| % 3 == 0
    ensures Encode(a + b) == Encode(a) + Encode(b)
    decreases |a|
  {
    if a == [] {
      assert a + b == b;
    } else {
      assert |a| >= 3;
      assert |a[3..]| % 3 == 0;
      EncodeAppend(a[3..], b);
      EncodeUnfoldAppend(a, b);
      EncodeUnfold(a);
      Regroup(Encode(a + b), Encode(a), EncodeTriple(a[0], a[1], a[2]), Encode(a[3..]),
              Encode(a[3..] + b), Encode(b));
    }
  }

  /** How many `=` characters end the encoding of n bytes. */
  function PadCount(n: nat): nat
  {
    (3 - n % 3) % 3
  }

  /** Exactly the last n characters of s are `=`. */
  predicate PaddedTail(s: string, n: nat)
  {
    forall k :: 0 <= k < |s| ==> (s[k] == Pad <==> k >= |s| - n)
  }

  lemma TripleNoPad(b0: Byte, b1: Byte, b2: Byte)
    ensures forall k :: 0 <= k < 4 ==> EncodeTriple(b0, b1, b2)[k] != Pad
  {
  }

  /** The padding: exactly the last PadCount(|bytes|) characters are `=`, and no
      other character is. */
  lemma {:induction false} EncodePadding(bytes: seq<Byte>)
    ensures PaddedTail(Encode(bytes), PadCount(|bytes|))
    decreases |bytes|
  {
    if |bytes| == 1 {
      assert PaddedTail(EncodeOne(bytes[0]), 2);
    } else if |bytes| == 2 {
      assert PaddedTail(EncodeTwo(bytes[0], bytes[1]), 1);
    } else if |bytes| >= 3 {
      EncodePadding(bytes[3..]);
      var t, r := EncodeTriple(bytes[0], bytes[1], bytes[2]), Encode(bytes[3..]);
      EncodeUnfold(bytes);
      TripleNoPad(bytes[0], bytes[1], bytes[2]);
      PadCountStep(|bytes|);
      assert |bytes| > 3 ==> |r| >= 4;
      PaddedTailPrepend(Encode(bytes), t, r, PadCount(|bytes|));
    }
  }

  lemma PadCountStep(n: nat)
    requires n >= 3
    ensures PadCount(n) == PadCount(n - 3) <= 2
  {
  }

  /** Unpadded characters in front keep a padded tail. */
  lemma PaddedTailPrepend(s: string, t: string, r: string, n: nat)
    requires s == t + r
    requires forall k :: 0 <= k < |t| ==> t[k] != Pad
    requires PaddedTail(r, n) && n <= |r|
    ensures PaddedTail(s, n)
  {
    forall k | 0 <= k < |s|
      ensures s[k] == Pad <==> k >= |s| - n
    {
      if k >= |t| {
        assert s[k] == r[k - |t|];
      }
    }
  }
}
