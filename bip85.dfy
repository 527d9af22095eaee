/** The BIP85 pipeline of index.js: `GetChildEntropy` (word count, derivation path,
    entropy extraction), `createChildMnemonic` and `createChildPassword`. The
    cryptographic libraries it calls are parameters. */
module Bip85 {
  import opened Common
  import opened Words
  import opened Decimal
  import opened DerivationPath
  import opened Base64
  import opened Bip39
  import opened PasswordEncoder

  /** The external collaborators of index.js, as functions of their inputs:
      `bip39.mnemonicToSeed(mnemonic, password)` (index.js:8),
      `BIP32Factory(ecc).fromSeed(seed).derivePath(path).privateKey` (index.js:11, 25),
      the SHA-256 and the English wordlist inside `bip39.entropyToMnemonic` (index.js:45). */
  datatype Collaborators = Collaborators(
    mnemonicToSeed: (string, string) -> Seed,
    derivePath: (Seed, string) -> PrivateKey,
    sha256: seq<Byte> -> Digest,
    wordlist: Wordlist)

  /** index.js:29: 128 bits for a 12-word master, 256 bits for every other count. */
  function EntropyBits(wordCount: nat): nat
  {
    if wordCount == 12 then 128 else 256
  }

  /** index.js:34-37: the first 16 bytes of the key for 128 bits, the key itself
      otherwise; the result is always a prefix of the key. */
  function ExtractEntropy(wordCount: nat, key: PrivateKey): (entropy: seq<Byte>)
    ensures |entropy| * 8 == EntropyBits(wordCount)
    ensures entropy <= key
  {
    if EntropyBits(wordCount) == 128 then key[..16] else key
  }

  /** The path string of index.js:22 for this master and index; it reads back as
      the components the code builds. */
  function ChildPath(masterMnemonic: string, index: nat): (path: string)
    ensures ParsePath(path) == Some(BuildPath(WordCount(masterMnemonic), index))
  {
    var p := BuildPath(WordCount(masterMnemonic), index);
    ParseRenderPath(p);
    RenderPath(p)
  }

  /** The child private key at the end of that path (index.js:8-25). */
  function ChildKey(c: Collaborators, masterMnemonic: string, password: string, index: nat): PrivateKey
  {
    c.derivePath(c.mnemonicToSeed(masterMnemonic, password), ChildPath(masterMnemonic, index))
  }

  /** `GetChildEntropy(masterMnemonic, password, bip85Index)`. */
  function GetChildEntropy(c: Collaborators, masterMnemonic: string, password: string, index: nat)
    : (entropy: seq<Byte>)
    ensures |entropy| == (if WordCount(masterMnemonic) == 12 then 16 else 32)
    ensures entropy <= ChildKey(c, masterMnemonic, password, index)
  {
    ExtractEntropy(WordCount(masterMnemonic), ChildKey(c, masterMnemonic, password, index))
  }

  /** The phrase `createChildMnemonic(masterMnemonic, bip85Index, password)` prints. */
  function CreateChildMnemonic(c: Collaborators, masterMnemonic: string, index: nat, password: string)
    : (r: Result<string, MnemonicError>)
    ensures r.Ok?
  {
    EntropyToMnemonic(c.sha256, c.wordlist, GetChildEntropy(c, masterMnemonic, password, index))
  }

  /** The password `createChildPassword(masterMnemonic, bip85Index, password)` prints. */
  function CreateChildPassword(c: Collaborators, masterMnemonic: string, index: nat, password: string)
    : (p: string)
    ensures |p| == PasswordLength
  {
    Password(GetChildEntropy(c, masterMnemonic, password, index))
  }

  /** The key is derived at m/83696968'/39'/0/<wordCount>/<index>, with the word
      count of index.js:14 (spaces plus one). */
  lemma ChildPathText(masterMnemonic: string, index: nat)
    ensures ChildPath(masterMnemonic, index)
         == "m/83696968'/39'/0/" + NatToDecimal(multiset(masterMnemonic)[' '] + 1) + "/" + NatToDecimal(index)
  {
    WordCountIsSpacesPlusOne(masterMnemonic);
    BuildPathRendering(WordCount(masterMnemonic), index);
  }

  /** The two branches of index.js:29-37: a 12-word master gets the first 16 bytes of
      the child key, any other word count the whole key. */
  lemma ChildEntropyBranches(c: Collaborators, masterMnemonic: string, password: string, index: nat)
    ensures var key, entropy := ChildKey(c, masterMnemonic, password, index),
                                GetChildEntropy(c, masterMnemonic, password, index);
      (WordCount(masterMnemonic) == 12 ==> entropy == key[..16]) &&
      (WordCount(masterMnemonic) != 12 ==> entropy == key)
  {
  }

  /** A master of n single-spaced words yields 16 bytes exactly when n is 12, and the
      whole 32-byte key for any other n (15, 18 and 21 included). */
  lemma EntropyOfJoinedMaster(c: Collaborators, words: seq<string>, password: string, index: nat)
    requires |words| >= 1 && NoSeparator(words, ' ')
    ensures var entropy := GetChildEntropy(c, Join(words, ' '), password, index);
      (|words| == 12 ==> |entropy| == 16) && (|words| != 12 ==> |entropy| == 32)
  {
    WordCountOfJoin(words);
  }

  /** Two indices give two different derivation path strings, so the pipeline asks
      the key derivation for different keys. */
  lemma ChildPathsDiffer(masterMnemonic: string, i: nat, j: nat)
    requires i != j
    ensures ChildPath(masterMnemonic, i) != ChildPath(masterMnemonic, j)
  {
    DistinctIndicesDistinctPaths(WordCount(masterMnemonic), i, j);
  }

  /** The child mnemonic is always produced (16 and 32 bytes are valid BIP39 entropy),
      has 12 words for a 12-word master and 24 otherwise, and decodes back to the
      child entropy. */
  lemma ChildMnemonicProperties(c: Collaborators, masterMnemonic: string, index: nat, password: string)
    requires WellFormedWordlist(c.wordlist)
    ensures CreateChildMnemonic(c, masterMnemonic, index, password).Ok?
    ensures WordCount(CreateChildMnemonic(c, masterMnemonic, index, password).value)
         == (if WordCount(masterMnemonic) == 12 then 12 else 24)
    ensures MnemonicToEntropy(c.sha256, c.wordlist, CreateChildMnemonic(c, masterMnemonic, index, password).value)
         == Ok(GetChildEntropy(c, masterMnemonic, password, index))
  {
    var entropy := GetChildEntropy(c, masterMnemonic, password, index);
    MnemonicWordCount(c.sha256, c.wordlist, entropy);
    MnemonicRoundTrip(c.sha256, c.wordlist, entropy);
  }

  /** The child password always has 24 characters. For a 12-word master it is the
      full padded encoding of the 16-byte entropy; otherwise it is the unpadded
      encoding of the first 18 bytes of the child key. */
  lemma ChildPasswordProperties(c: Collaborators, masterMnemonic: string, index: nat, password: string)
    ensures var p := CreateChildPassword(c, masterMnemonic, index, password);
      var entropy := GetChildEntropy(c, masterMnemonic, password, index);
      |p| == PasswordLength &&
      (WordCount(masterMnemonic) == 12 ==> p == Encode(entropy) && p[22..] == "==" && Decode(p) == Some(entropy)) &&
      (WordCount(masterMnemonic) != 12 ==>
         p == Encode(ChildKey(c, masterMnemonic, password, index)[..18]) && Pad !in p)
  {
    var entropy := GetChildEntropy(c, masterMnemonic, password, index);
    if WordCount(masterMnemonic) == 12 {
      PasswordOfSixteenBytes(entropy);
    } else {
      PasswordOfThirtyTwoBytes(entropy);
      PasswordOfLongEntropy(entropy);
    }
  }
}
