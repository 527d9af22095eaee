/** BIP39 "Generating the mnemonic" as `bip39.entropyToMnemonic` applies it at
    index.js:45, with SHA-256 and the wordlist given as parameters, and the
    library's inverse `mnemonicToEntropy` as the partner it is checked against. */
module Bip39 {
  import opened Common
  import opened Words
  import opened Bits

  /** A BIP39 wordlist: 2048 words, one per 11-bit index. */
  type Wordlist = w: seq<string> | |w| == 2048 witness seq(2048, _ => "")

  /** What a wordlist needs for phrases to read back: distinct words without spaces. */
  predicate WellFormedWordlist(wordlist: Wordlist)
  {
    NoSeparator(wordlist, ' ') &&
    forall i, j :: 0 <= i < j < |wordlist| ==> wordlist[i] != wordlist[j]
  }

  datatype MnemonicError = InvalidEntropy | InvalidMnemonic | InvalidChecksum

  /** The entropy lengths BIP39 accepts: 16 to 32 bytes in steps of 4. */
  predicate ValidEntropyLength(n: nat)
  {
    16 <= n <= 32 && n % 4 == 0
  }

  /** The checksum: the first ENT/32 bits of SHA-256 of the entropy. */
  function ChecksumBits(sha256: seq<Byte> -> Digest, entropy: seq<Byte>): (cs: seq<bool>)
    requires |entropy| <= 32
    ensures |cs| == |entropy| * 8 / 32
  {
    BytesToBits(sha256(entropy))[..|entropy| * 8 / 32]
  }

  /** The words for a sequence of 11-bit indices. */
  function WordsAt(wordlist: Wordlist, indices: seq<nat>): (words: seq<string>)
    requires forall i :: 0 <= i < |indices| ==> indices[i] < |wordlist|
    ensures |words| == |indices|
  {
    seq(|indices|, i requires 0 <= i < |indices| => wordlist[indices[i]])
  }

  /** The entropy bits followed by the checksum bits: 33 bits per 4 bytes. */
  function MnemonicBits(sha256: seq<Byte> -> Digest, entropy: seq<Byte>): (bits: seq<bool>)
    requires ValidEntropyLength(|entropy|)
    ensures |bits| == 33 * (|entropy| / 4)
    ensures |bits| % 11 == 0 && |bits| / 33 * 32 == 8 * |entropy|
  {
    BytesToBits(entropy) + ChecksumBits(sha256, entropy)
  }

  /** The 11-bit word indices of the phrase: three per 4 bytes of entropy. */
  function MnemonicIndices(sha256: seq<Byte> -> Digest, entropy: seq<Byte>): (indices: seq<nat>)
    requires ValidEntropyLength(|entropy|)
    ensures |indices| == 3 * (|entropy| / 4)
    ensures forall i :: 0 <= i < |indices| ==> indices[i] < 2048
  {
    Pow2Eleven();
    Chunk(MnemonicBits(sha256, entropy))
  }

  /** `entropyToMnemonic(entropy)`: entropy bits followed by checksum bits, cut into
      11-bit indices, looked up and joined with single spaces. */
  function EntropyToMnemonic(sha256: seq<Byte> -> Digest, wordlist: Wordlist, entropy: seq<Byte>)
    : Result<string, MnemonicError>
  {
    if !ValidEntropyLength(|entropy|) then Err(InvalidEntropy)
    else Ok(Join(WordsAt(wordlist, MnemonicIndices(sha256, entropy)), ' '))
  }

  /** `wordlist.indexOf(word)`: the first position of the word, None when absent. */
  function IndexOf(wordlist: seq<string>, word: string): (r: Option<nat>)
    ensures r.Some? ==> r.value < |wordlist| && wordlist[r.value] == word && word !in wordlist[..r.value]
    ensures r.None? ==> word !in wordlist
    decreases |wordlist|
  {
    if wordlist == [] then None
    else if wordlist[0] == word then Some(0)
    else
      match IndexOf(wordlist[1..], word)
      case Some(i) =>
        assert wordlist[..i + 1] == [wordlist[0]] + wordlist[1..][..i];
        Some(i + 1)
      case None => None
  }

  function Indices(wordlist: Wordlist, words: seq<string>): Option<seq<nat>>
    decreases |words|
  {
    if words == [] then Some([])
    else
      match (IndexOf(wordlist, words[0]), Indices(wordlist, words[1..]))
      case (Some(i), Some(rest)) => Some([i] + rest)
      case _ => None
  }

  /** `mnemonicToEntropy(mnemonic)`: split on spaces, look every word up, separate the
      entropy bits from the checksum bits and check both. */
  function MnemonicToEntropy(sha256: seq<Byte> -> Digest, wordlist: Wordlist, mnemonic: string)
    : Result<seq<Byte>, MnemonicError>
  {
    var words := Split(mnemonic, ' ');
    if |words| % 3 != 0 then Err(InvalidMnemonic)
    else
      match Indices(wordlist, words)
      case None => Err(InvalidMnemonic)
      case Some(indices) => EntropyOfBits(sha256, Unchunk(indices))
  }

  /** The second half of `mnemonicToEntropy`: the first 32 of every 33 bits are
      entropy, the rest its checksum. */
  function EntropyOfBits(sha256: seq<Byte> -> Digest, bits: seq<bool>): Result<seq<Byte>, MnemonicError>
  {
    var divider := |bits| / 33 * 32;
    assert divider <= |bits| && divider % 8 == 0;
    var entropy := BitsToBytes(bits[..divider]);
    if !ValidEntropyLength(|entropy|) then Err(InvalidEntropy)
    else if ChecksumBits(sha256, entropy) != bits[divider..] then Err(InvalidChecksum)
    else Ok(entropy)
  }

  /** Entropy of 16 to 32 bytes (in steps of 4) gives (ENT + ENT/32) / 11 words:
      12 for 16 bytes, 24 for 32 bytes; other lengths are refused. */
  lemma MnemonicWordCount(sha256: seq<Byte> -> Digest, wordlist: Wordlist, entropy: seq<Byte>)
    requires NoSeparator(wordlist, ' ')
    ensures EntropyToMnemonic(sha256, wordlist, entropy).Err? <==> !ValidEntropyLength(|entropy|)
    ensures EntropyToMnemonic(sha256, wordlist, entropy).Ok? ==>
      WordCount(EntropyToMnemonic(sha256, wordlist, entropy).value) == 3 * |entropy| / 4
    ensures |entropy| == 16 ==> WordCount(EntropyToMnemonic(sha256, wordlist, entropy).value) == 12
    ensures |entropy| == 32 ==> WordCount(EntropyToMnemonic(sha256, wordlist, entropy).value) == 24
  {
    if ValidEntropyLength(|entropy|) {
      var words := WordsAt(wordlist, MnemonicIndices(sha256, entropy));
      assert NoSeparator(words, ' ');
      WordCountOfJoin(words);
    }
  }

  lemma WordsAtNoSeparator(wordlist: Wordlist, indices: seq<nat>)
    requires NoSeparator(wordlist, ' ')
    requires forall i :: 0 <= i < |indices| ==> indices[i] < |wordlist|
    ensures NoSeparator(WordsAt(wordlist, indices), ' ')
  {
  }

  lemma IndexOfDistinct(wordlist: Wordlist, i: nat)
    requires WellFormedWordlist(wordlist) && i < |wordlist|
    ensures IndexOf(wordlist, wordlist[i]) == Some(i)
  {
  }

  lemma {:induction false} IndicesOfWords(wordlist: Wordlist, indices: seq<nat>)
    requires WellFormedWordlist(wordlist)
    requires forall i :: 0 <= i < |indices| ==> indices[i] < |wordlist|
    ensures Indices(wordlist, WordsAt(wordlist, indices)) == Some(indices)
    decreases |indices|
  {
    if indices != [] {
      var words := WordsAt(wordlist, indices);
      IndexOfDistinct(wordlist, indices[0]);
      IndicesOfWords(wordlist, indices[1..]);
      assert words[1..] == WordsAt(wordlist, indices[1..]);
      assert [indices[0]] + indices[1..] == indices;
    }
  }

  /** The divider of `mnemonicToEntropy` falls exactly between the entropy bits and
      the checksum bits of a phrase built from that entropy. */
  lemma MnemonicBitsParts(sha256: seq<Byte> -> Digest, entropy: seq<Byte>)
    requires ValidEntropyLength(|entropy|)
    ensures var bits := MnemonicBits(sha256, entropy);
      |bits| / 33 * 32 == 8 * |entropy| &&
      bits[..|bits| / 33 * 32] == BytesToBits(entropy) &&
      bits[|bits| / 33 * 32..] == ChecksumBits(sha256, entropy)
  {
  }

  lemma EntropyOfMnemonicBits(sha256: seq<Byte> -> Digest, entropy: seq<Byte>)
    requires ValidEntropyLength(|entropy|)
    ensures EntropyOfBits(sha256, MnemonicBits(sha256, entropy)) == Ok(entropy)
  {
    MnemonicBitsParts(sha256, entropy);
    EntropyOfSplitBits(sha256, MnemonicBits(sha256, entropy), entropy);
  }

  /** Bits made of an entropy followed by its checksum read back as that entropy. */
  lemma EntropyOfSplitBits(sha256: seq<Byte> -> Digest, bits: seq<bool>, entropy: seq<Byte>)
    requires ValidEntropyLength(|entropy|)
    requires |bits| / 33 * 32 == 8 * |entropy|
    requires bits[..|bits| / 33 * 32] == BytesToBits(entropy)
    requires bits[|bits| / 33 * 32..] == ChecksumBits(sha256, entropy)
    ensures EntropyOfBits(sha256, bits) == Ok(entropy)
  {
    BitsToBytesOfBytesToBits(entropy);
  }

  /** Reading back a phrase of wordlist entries recovers their indices. */
  lemma MnemonicToEntropyOfWords(sha256: seq<Byte> -> Digest, wordlist: Wordlist, indices: seq<nat>)
    requires WellFormedWordlist(wordlist)
    requires |indices| >= 1 && |indices| % 3 == 0
    requires forall i :: 0 <= i < |indices| ==> indices[i] < |wordlist|
    ensures MnemonicToEntropy(sha256, wordlist, Join(WordsAt(wordlist, indices), ' '))
         == EntropyOfBits(sha256, Unchunk(indices))
  {
    var words := WordsAt(wordlist, indices);
    WordsAtNoSeparator(wordlist, indices);
    SplitJoin(words, ' ');
    IndicesOfWords(wordlist, indices);
  }

  /** Decoding the phrase of any valid entropy gives the entropy back, and the
      checksum it carries is accepted. */
  lemma MnemonicRoundTrip(sha256: seq<Byte> -> Digest, wordlist: Wordlist, entropy: seq<Byte>)
    requires WellFormedWordlist(wordlist)
    requires ValidEntropyLength(|entropy|)
    ensures EntropyToMnemonic(sha256, wordlist, entropy).Ok?
    ensures MnemonicToEntropy(sha256, wordlist, EntropyToMnemonic(sha256, wordlist, entropy).value)
         == Ok(entropy)
  {
    var bits := MnemonicBits(sha256, entropy);
    var indices := MnemonicIndices(sha256, entropy);
    MnemonicToEntropyOfWords(sha256, wordlist, indices);
    UnchunkChunk(bits);
    assert Unchunk(indices) == bits;
    EntropyOfMnemonicBits(sha256, entropy);
  }
}
