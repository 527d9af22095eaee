# BIP85 child mnemonic and password derivation, modelled in Dafny

`index.js` derives child secrets from a BIP39 master mnemonic in the BIP85 style.

- `GetChildEntropy` turns the master mnemonic and its password into a seed. It builds a BIP32 root node from that seed and counts the words of the master (`split(' ').length`). It then derives the key at `m/83696968'/39'/0/<wordCount>/<index>` and keeps 16 bytes of the private key for a 12-word master, or all 32 bytes otherwise.
- `createChildMnemonic` turns that entropy into a BIP39 phrase with `bip39.entropyToMnemonic`.
- `createChildPassword` encodes the entropy in Base64 and keeps the first 24 characters.

The model is pure: every step of the source is an expression, so every step is a Dafny function, and the properties are lemmas. The modules are:

- `Common`: bytes, fixed-length keys, seeds and digests, and `Option`/`Result`.
- `Words`: JavaScript `String.prototype.split` on one character, `Array.prototype.join`, and the word count.
- `Decimal`: the decimal rendering of a number in a template literal, and a parser that inverts it.
- `DerivationPath`: the path as BIP32 components, its rendering to the string given to `derivePath`, and a parser.
- `Bits`, `Bip39`: BIP39 "Generating the mnemonic" (entropy bits, SHA-256 checksum bits, 11-bit word indices), with its inverse `mnemonicToEntropy`, against which the round trip is proved.
- `Base64`: RFC 4648 section 4 encoding with `=` padding, as `Buffer.toString('base64')` writes it, and a strict decoder, its inverse, against which the round trip is proved.
- `PasswordEncoder`: the 24-character truncation of index.js:59.
- `Bip85`: the pipeline of `GetChildEntropy`, `createChildMnemonic` and `createChildPassword`.

The code's derivation path differs from what BIP85 prescribes, and from what the comment at index.js:16 claims. The template at index.js:22 hardens only `83696968'` and `39'`. The language slot, the word count and the index are written without `'`. The model follows the code. `DerivationPath.BuildPathDeviatesFromStandard` states the difference against `StandardPath`, the all-hardened path.

The same holds for index.js:29. Every word count other than 12 (15, 18, 21 and 24, or a master with doubled spaces) takes the whole 32-byte key and so gives a 24-word child.

The comment at index.js:17 calls 83696968 a T9 code for "xpub". The number is the ASCII codes of "SEED" (83 69 69 68). The comment has no effect on the code.

## Model

| member | source | states |
|---|---|---|
| Words.Split | index.js:14 | `split` on one separator character always returns at least one piece, even for the empty string |
| Words.WordCount | index.js:14 | `masterMnemonic.split(' ').length` is at least 1, even for the empty string; WordCountIsSpacesPlusOne gives its exact value |
| Words.SplitLength | index.js:14 | the number of pieces is the number of separator characters plus one |
| Words.SplitPiecesNoSeparator | index.js:14 | no piece contains the separator |
| Words.JoinSplit | index.js:14 | joining the pieces with the separator gives back the original string |
| Words.SplitJoin | index.js:14 | splitting the join of separator-free pieces gives back exactly those pieces |
| Words.WordCountIsSpacesPlusOne | index.js:14 | `masterMnemonic.split(' ').length` is the number of spaces plus one, so empty words from doubled spaces are counted |
| Words.WordCountOfJoin | index.js:14 | a phrase of n space-free words joined by single spaces has word count n |
| Decimal.NatToDecimal | index.js:22 | a number interpolates to a non-empty string of digits with no leading zero |
| Decimal.ParseNatToDecimal | index.js:22 | reading the interpolated digits back gives the number |
| Decimal.NatToDecimalInjective | index.js:22 | different numbers interpolate to different strings |
| DerivationPath.Pieces | index.js:22 | a path of n components renders as "m" plus n slash-separated pieces |
| DerivationPath.BuildPath | index.js:22 | the five components of the template; no contract of its own: BuildPathPieces, BuildPathRendering and BuildPathDeviatesFromStandard state its rendering and its hardened marks |
| DerivationPath.RenderPath | index.js:22 | the `m/…/…` string given to `derivePath`; no contract of its own: ParseRenderPath states that it loses nothing and BuildPathRendering gives the text of the built path |
| DerivationPath.ParseRenderComponent | index.js:22 | one rendered component (digits, plus `'` when hardened) parses back to its child number and hardened mark |
| DerivationPath.ParseRenderComponents | index.js:22 | a sequence of rendered components parses back to the components |
| DerivationPath.PiecesNoSlash | index.js:22 | no rendered piece contains `/` |
| DerivationPath.ParseRenderPath | index.js:22 | every rendered path parses back to the same components, so the rendering loses nothing |
| DerivationPath.PurposeDigits | index.js:22 | the purpose 83696968 renders as "83696968" |
| DerivationPath.BuildPathPieces | index.js:22 | the pieces of the path are m, 83696968', 39', 0, the word count and the index |
| DerivationPath.BuildPathRendering | index.js:22 | the path string is exactly m/83696968'/39'/0/<wordCount>/<index> |
| DerivationPath.BuildPathDeviatesFromStandard | index.js:16-22 | the path has BIP85's child numbers for language 0, but only the first two components are hardened, where BIP85 hardens all five |
| DerivationPath.DistinctIndicesDistinctPaths | index.js:22 | different indices give different path strings for the same word count |
| Bits.BitsValueBound | index.js:45 | a bit string of width w denotes a number below 2^w |
| Bits.BitsValueOfNatToBits | index.js:45 | writing a number that fits in w bits and reading it back gives the number |
| Bits.NatToBitsOfValue | index.js:45 | reading a bit string and writing it back at its width gives the bit string |
| Bits.Chunk | index.js:45 | a bit string whose length is a multiple of 11 splits into 11-bit values, each below 2048 |
| Bits.Unchunk | index.js:45 | writing values back as 11-bit groups gives 11 bits per value |
| Bits.UnchunkChunk | index.js:45 | cutting into 11-bit values and writing them back gives the bit string |
| Bits.BytesToBits | index.js:45 | bytes become eight bits each, most significant bit first |
| Bits.BitsToBytes | index.js:45 | groups of eight bits read back as one byte each |
| Bits.BitsToBytesOfBytesToBits | index.js:45 | bytes to bits and back gives the bytes |
| Bip39.ChecksumBits | index.js:45 | the checksum has ENT/32 bits |
| Bip39.WordsAt | index.js:45 | one word per index |
| Bip39.MnemonicBits | index.js:45 | entropy plus checksum is 33 bits per 4 bytes, a multiple of 11, with the entropy filling the first 32 of every 33 bits |
| Bip39.MnemonicIndices | index.js:45 | three word indices per 4 bytes of entropy, each below 2048 |
| Bip39.EntropyToMnemonic | index.js:45 | `bip39.entropyToMnemonic`; no contract of its own: MnemonicWordCount states when it fails and how many words it gives, MnemonicRoundTrip that `mnemonicToEntropy` inverts it |
| Bip39.IndexOf | index.js:45 | `indexOf`: a found index points at the first occurrence of the word (it does not occur before); not found means the word is not in the list |
| Bip39.MnemonicWordCount | index.js:45 | `entropyToMnemonic` refuses exactly the entropy lengths outside 16..32 bytes in steps of 4; otherwise the phrase has 3*ENT/32 words: 12 for 16 bytes, 24 for 32 bytes |
| Bip39.WordsAtNoSeparator | index.js:45 | words taken from a space-free wordlist contain no space |
| Bip39.IndexOfDistinct | index.js:45 | in a wordlist without duplicates, looking up entry i gives i |
| Bip39.IndicesOfWords | index.js:45 | looking up the words of a list of indices gives the indices |
| Bip39.MnemonicBitsParts | index.js:45 | the phrase bits are the entropy bits followed by the checksum bits, split at 32/33 of the length |
| Bip39.EntropyOfMnemonicBits | index.js:45 | the entropy and checksum read back from the phrase bits are accepted and give the entropy |
| Bip39.EntropyOfSplitBits | index.js:45 | entropy bits followed by their checksum read back as that entropy |
| Bip39.MnemonicToEntropyOfWords | index.js:45 | decoding a phrase of wordlist entries comes down to decoding their 11-bit indices |
| Bip39.MnemonicRoundTrip | index.js:45 | for every valid entropy the phrase is produced, and `mnemonicToEntropy` of it gives the entropy back |
| Base64.SextetChar | index.js:56 | alphabet characters are never the pad character |
| Base64.SextetValueOfChar | index.js:56 | every 6-bit value maps to an alphabet character that maps back to it |
| Base64.SextetCharOfValue | index.js:56 | every alphabet character is the character of its value |
| Base64.Encode | index.js:56 | n bytes encode to 4*ceil(n/3) characters |
| Base64.TripleRoundTrip | index.js:56 | a full group of three bytes decodes back to those bytes |
| Base64.DecodeChars | index.js:56 | four alphabet characters decode to the bytes their 6-bit values spell |
| Base64.QuadRoundTrip | index.js:56 | every decodable group of four characters is the encoding of what it decodes to |
| Base64.OneRoundTrip | index.js:56 | a final single byte ("xx==") decodes back to that byte |
| Base64.TwoRoundTrip | index.js:56 | a final pair of bytes ("xxx=") decodes back to those bytes |
| Base64.OneInverse | index.js:56 | every accepted "xx==" group is the encoding of its byte |
| Base64.TwoInverse | index.js:56 | every accepted "xxx=" group is the encoding of its two bytes |
| Base64.EncodeUnfold | index.js:56 | the encoding of three or more bytes starts with the group of the first three |
| Base64.EncodeShortTestVectors | index.js:56 | the RFC 4648 section 10 vectors: "f" is "Zg==", "fo" is "Zm8=", "foo" is "Zm9v" |
| Base64.EncodeLongTestVectors | index.js:56 | the RFC 4648 section 10 vectors: "foob" is "Zm9vYg==", "fooba" is "Zm9vYmE=", "foobar" is "Zm9vYmFy" |
| Base64.DecodeEncode | index.js:56 | decoding the encoding of any bytes gives the bytes back |
| Base64.EncodeDecode | index.js:56 | every text the strict decoder accepts is the encoding of what it decodes to, so encoding is a bijection onto canonical texts |
| Base64.EncodeAppend | index.js:56 | after a prefix of whole groups (a multiple of 3 bytes), encoding distributes over concatenation |
| Base64.EncodePadding | index.js:56 | exactly the last (3 - n mod 3) mod 3 characters of the encoding are `=` |
| PasswordEncoder.Password | index.js:56-59 | the password is a prefix of the Base64 encoding, of length min(24, 4*ceil(n/3)) |
| PasswordEncoder.PasswordOfSixteenBytes | index.js:56-59 | for 16 bytes the password is the whole encoding: 24 characters ending in "==", decoding back to the entropy |
| PasswordEncoder.PasswordOfLongEntropy | index.js:56-59 | from 18 bytes on, the password is the unpadded encoding of the first 18 bytes, 24 characters without `=`, decoding to those 18 bytes; later bytes do not affect it |
| PasswordEncoder.PasswordOfFirstEighteen | index.js:56-59 | the first 24 characters of the encoding of 18 or more bytes are the encoding of the first 18 |
| PasswordEncoder.PasswordOfThirtyTwoBytes | index.js:56-59 | 32 bytes encode to 44 characters ending in `=`; the password is a proper prefix of that |
| Bip85.ExtractEntropy | index.js:29-37 | the entropy has 128 bits for word count 12 and 256 bits otherwise, and is a prefix of the private key |
| Bip85.EntropyBits | index.js:29 | 128 bits for word count 12, 256 for every other count; no contract of its own: ExtractEntropy and ChildEntropyBranches state what it selects |
| Bip85.ChildPath | index.js:14-22 | the path string reads back as the five components the code builds from the word count and the index |
| Bip85.ChildKey | index.js:8-25 | the private key at the child path of the seed of master and password; no contract of its own, since seed and key derivation are parameters: GetChildEntropy and ChildPathsDiffer state what is derived from it |
| Bip85.GetChildEntropy | index.js:6-39 | the child entropy has 16 bytes for a 12-word master and 32 bytes otherwise, and is a prefix of the key derived at the child path |
| Bip85.ChildPathText | index.js:14-22 | the key is derived at m/83696968'/39'/0/<spaces+1>/<index> |
| Bip85.ChildEntropyBranches | index.js:29-37 | a 12-word master gets the first 16 bytes of the child key; any other word count gets the whole key |
| Bip85.EntropyOfJoinedMaster | index.js:14-37 | a master of n single-spaced words gets 16 bytes exactly when n is 12, and 32 bytes for every other n |
| Bip85.ChildPathsDiffer | index.js:22-25 | two different indices request two different derivation paths |
| Bip85.ChildMnemonicProperties | index.js:41-45 | the child phrase is always produced, has 12 words for a 12-word master and 24 otherwise, and decodes back to the child entropy |
| Bip85.CreateChildMnemonic | index.js:41-45 | the child phrase is always produced (never an entropy error); ChildMnemonicProperties gives its word count and round trip |
| Bip85.CreateChildPassword | index.js:52-59 | the child password always has 24 characters; ChildPasswordProperties says which characters |
| Bip85.ChildPasswordProperties | index.js:52-59 | the child password has 24 characters. For a 12-word master it is the padded encoding of the entropy and decodes back to it; otherwise it is the unpadded encoding of the first 18 bytes of the child key |

## Left out

- `bip39.mnemonicToSeed`, BIP32 `fromSeed`/`derivePath` with secp256k1, and SHA-256 are parameters. They are passed as functions in `Bip85.Collaborators`, whose results have the fixed lengths of a seed (64 bytes), a private key (32) and a digest (32); their internals are not modelled.
- The bip39 and bip32 library sources are not part of this model. `Bip39` follows BIP39 "Generating the mnemonic" with the wordlist as a parameter. NFKD normalisation and the Japanese ideographic-space separator are left out.
- `main` (index.js:65-85) is left out: `process.argv`, the missing-argument check, `process.exit` and `console` output. The derived phrase and password are the functions' results instead of printed lines.
- `async`/`await` is left out, because nothing in the pipeline depends on the interleaving.
- `Bip85.GetChildEntropy`: the index is a `nat`, so `parseInt` returning NaN or a negative number is not modelled, nor is the exponent notation JavaScript uses when interpolating numbers of 10^21 or more. How the key derivation treats large child numbers in the unhardened slots belongs to the `derivePath` parameter: the model passes it the path string unchanged.
- `Bip85.GetChildEntropy`: the case where a BIP32 derivation yields an invalid key (probability about 2^-127) belongs to the key derivation parameter and is not modelled.
