# Verified models of xous-core's tools and emulated peripherals

This project models the parts of xous-core that do the hardest computing outside the kernel,
and proves what they are for:

- **AES-GCM-SIV** (`tools/rfc8452.py`): carry-less arithmetic on unbounded integers, POLYVAL in
  its batch and incremental forms, counter mode, and authenticated encryption.
  Modules `Bits`, `Bytes`, `Options`, `Polynomial`, `Field`, `Polyval`, `GcmSiv`.
- **bcrypt** (`tools/bcrypt.py`): Blowfish whose state words are never masked to 32 bits, and the
  base64 variant that goes with it. Modules `Blowfish` (the 32-bit reference), `BlowfishFacts`
  (what that reference computes), `BCrypt`, `BcryptBase64`.
- **The PDDB image decoder** (`tools/pddbcommon.py`): MurmurHash3 checksums, the dictionary scan
  with its one-page cache, the paged key reader, the journalled free-space log, and BIP-39
  phrases. Modules `Murmur`, `DictScan`, `KeyReader`, `FreeSpace`, `Radix`, `Bip39`.
- **The SPI flash and the host that updates it** (`MXIC_MX66UM1G45G.cs`, `BetrustedSpinor.cs`,
  `tools/usb_update.py`): chip, controller and host loop, proved correct as one composed system.
  Modules `FlashChip`, `FlashRuns`, `Spinor`, `FlashCommands`, `Updater`.
- **Gateware re-encryption** (`tools/usb_update.py`): module `Bitstream`.
- **The JTAG tap** (`Jtag.cs`): modules `Jtag`, `JtagRuns`.

Objects that the source updates in place are classes (`PolyvalIUF`, `BCrypt`, `Fscb`, `Flash`,
`BetrustedSpinor`, `PrecursorUsb`, `BetrustedJtag`). Their methods are proved against functions on
values, and the theorems are about those functions. Python integers are unbounded naturals; the
bit operators are defined on them bit by bit.

## How it is modelled

- The AES block cipher, CBC, SHA-256 and page decryption are parameters. Of the block cipher
  nothing is assumed except that it maps blocks to blocks. AES-GCM-SIV uses single blocks in CBC
  mode with a zero vector when it encrypts and in ECB mode when it decrypts; both are taken to be
  that same block function. Of the CBC mode of the gateware it is assumed that decryption undoes
  encryption and that lengths are kept.
- The initial Blowfish tables, the BIP-39 word list and the decoding of key names are parameters,
  so the results hold for any tables of the right size and any decoding.
- Random keys and vectors, USB transfers, clocks and watchdog pokes are parameters or left out.
- The chip's address accumulator is not part of the repository. It is taken to shift in four
  bytes, most significant first, which is the order in which the controller sends them.
- `mm3_hash` is modelled with 32-bit words. The length, which the source does not mask, enters in
  full. The source counts blocks in floating point, so lengths from 2^53 on are excluded.
- The rows of `FlashChip.Flash` tie the chip to its step functions byte by byte. They are not
  results in themselves; `FlashRuns`, `FlashCommands` and `Updater` rest on them.
- The burst transfers of the host are taken to put bytes into the controller's transmit queue and
  to read the flash as it is mapped into memory. What the bus yields behind the flash is a
  parameter.

## Where the code does not do what one would expect

Each of these is a theorem about the code as it is.

- **Key reader.** A key is read whole exactly when its pages decrypt and its offset in the first
  page plus its length fits in the number of pages that its length alone would need; then it is
  also read right (`KeyReader.WholeSliceIff`, with the case `KeyReader.TruncatedKey`). A page that
  does not decrypt is not even left blank: what follows moves up. That does no harm as long as the
  pages that decrypt come first (`KeyReader.ReadableFirst`), and `KeyReader.GapCloses` is the
  simplest case where it does.
- **Checksums.** A page-table entry is protected word by word except for its nonce word, and a
  space update except for its seed word. The other words are safe for all records, and for the
  two exceptions there are colliding records (`Murmur.ProtectedWords`).
- **Dictionary scan.** In an allocated page that does not decrypt, the last slot is read from the
  page cached before it, and a key there is counted again. The count is right exactly if there are
  keys enough or there is no such slot (`DictScan.Source.CountRightIff`). The keys themselves are
  never wrong, but a key is reported only if the keys and mistakes before it leave room for it
  (`DictScan.Source.ReportedIff`). So the loop can end with the number it wants and a key missing;
  `DictScan.LossyScan` is a dictionary of three pages, given byte by byte, for which it does.
- **Bit flip.** It is its own inverse exactly on multiples of four bytes
  (`Bitstream.BitflipTwiceIff`), because the last short word is widened.
- **Re-encryption.** The new vector is random and may contain a command word, and then the tool
  no longer finds its way in its own output. The fixed length command must fit as well.
  `Bitstream.Crypto.MarkersFoundIff` and `Bitstream.Crypto.ReadsBackIff` say exactly when, and
  `Bitstream.BothKinds` that there are vectors of both kinds.
- **base64.** The range test in `char64` lets through the code just past the table. Decoding raises
  an IndexError exactly if such a character is looked up (`BcryptBase64.IndexErrorIff`). An illegal
  character ends the loop, except as the fourth one of a group: decoding fails in `chr` exactly if
  one is looked up there (`BcryptBase64.ChrErrorIff`; inputs in `BcryptBase64.FailingInputs`). The
  statement after the loop, which wraps a text in a `bytearray`, always raises a TypeError; the
  result modelled is the sequence that the loop built.
- **Flash identification.** Against the emulated chip the identification check of the host cannot
  succeed, since the controller loses every second byte (`Updater.IdNeverMatches`). In
  `Updater.PrecursorUsb.FlashProgram` the expected identification is therefore an argument: with
  the real one the update is always refused, with the emulated one it goes through.
- **Flash update.** The byte in front of the data survives exactly when the address is a multiple
  of 4 KiB or the byte was 0xff already (`Updater.NeighbourKept`). Bytes left over in the transmit
  queue go into the flash first and shift the data (`Updater.LeftoverShifts`). With an empty queue
  and the data in range, the readback succeeds exactly if padding that sticks out of the flash reads
  as 0xff (`Updater.ReadsRightIff`; `Updater.PaddingSticksOut` is a case). That this padding is
  lost rests on the first byte behind the memory being dropped like the rest, see below.
- **JTAG registers** wrap after 64 shifts: bits that land on the same position are or-ed
  (`Jtag.CollectedBit`). The register is the number shifted in exactly if no bit from position 64
  on is set (`Jtag.CollectedSumIff`).

## Model

| member | source | states |
|---|---|---|
| Polynomial.ProductComm | tools/rfc8452.py:39-49 | the carry-less product underlying `mul` commutes, for all naturals |
| Polynomial.ProductAssoc | tools/rfc8452.py:39-49 | the carry-less product is associative |
| Polynomial.ProductXorLeft | tools/rfc8452.py:39-49 | the carry-less product distributes over xor |
| Polynomial.DegreeProduct | tools/rfc8452.py:56-68 | degrees add under the product, so there are no zero divisors |
| Polynomial.Remainder | tools/rfc8452.py:56-68 | a remainder of lower degree that differs from `a` by a multiple of `m` exists for every `a` and every `m > 0` |
| Polynomial.RemainderUnique | tools/rfc8452.py:56-68 | that remainder is unique |
| Polynomial.RemainderIff | tools/rfc8452.py:56-68 | two numbers have the same remainder exactly when they differ by a multiple of the modulus |
| Polynomial.RemainderXor | tools/rfc8452.py:56-68 | taking remainders is linear over xor |
| Polynomial.RemainderProduct | tools/rfc8452.py:56-68 | reducing a factor first does not change the reduced product |
| Field.ReduceLoop | tools/rfc8452.py:56-68 | the xor-if-smaller loop terminates for every modulus and yields the unique polynomial remainder |
| Field.MulLoop | tools/rfc8452.py:39-49 | the shift-and-add loop over 128 bits yields the product reduced by the field polynomial |
| Field.DotLoop | tools/rfc8452.py:52-53 | two calls of the multiplication loop yield the dot product |
| Field.MulComm | tools/rfc8452.py:38-49 | `mul` is commutative on 128-bit elements |
| Field.MulAssoc | tools/rfc8452.py:38-49 | `mul` is associative on 128-bit elements |
| Field.MulDistributes | tools/rfc8452.py:32-49 | `mul` distributes over `add` on both sides |
| Field.MulOne | tools/rfc8452.py:38-49 | one is neutral |
| Field.DotComm | tools/rfc8452.py:51-53 | `dot` is commutative |
| Field.DotDistributes | tools/rfc8452.py:51-53 | `dot` is bilinear |
| Field.DotAssoc | tools/rfc8452.py:51-53 | `dot` is associative |
| Field.InverseOfX128 | tools/rfc8452.py:24-30 | the constant `_INV` really is the inverse of x^128 modulo the constant `_MOD` |
| Field.DotTimesX128 | tools/rfc8452.py:51-53 | `dot(a, b)` times x^128 is `mul(a, b)`, as section 3 of RFC 8452 defines the dot product |
| Field.DotOne | tools/rfc8452.py:51-53 | x^128 is neutral for `dot` |
| Polyval.PolyvalLoop | tools/rfc8452.py:71-78 | the batch loop computes the POLYVAL recurrence |
| Polyval.PolyvalLinear | tools/rfc8452.py:71-78 | POLYVAL is linear over xor in equally long block lists, from any pair of starting states |
| Polyval.PolyvalState | tools/rfc8452.py:71-78 | the starting state contributes its multiple of a power of the key, apart from the blocks |
| Polyval.PolyvalIsSum | tools/rfc8452.py:71-78 | POLYVAL is the sum X_1 * H^s + ... + X_s * H of section 3 of RFC 8452 |
| Polyval.PolyvalOneBlock | tools/rfc8452.py:71-78 | changing one block by a difference changes the result by that difference times the matching power of the key |
| Polyval.OneBlockSeen | tools/rfc8452.py:71-78 | under a key with an inverse, a change of one block always changes the result |
| Polyval.AllSeenIff | tools/rfc8452.py:71-78 | for every key: all changes of one block change the result exactly if the key has an inverse |
| Polyval.RightPadLoop | tools/rfc8452.py:101-104 | zero padding goes to the next multiple of 16 and keeps the text as a prefix |
| Polyval.B2I | tools/rfc8452.py:117-122 | the shifting loop reads a little-endian number |
| Polyval.PolyvalIUF.constructor | tools/rfc8452.py:85-88 | a new state is zero under the little-endian key |
| Polyval.PolyvalIUF.Update | tools/rfc8452.py:93-107 | one update folds in the padded 16-byte blocks of the input, including a short last block |
| Polyval.PolyvalIUF.Digest | tools/rfc8452.py:109-114 | the digest is the state xored with the nonce, with the top bit cleared; a nonce that is too short raises |
| Polyval.DigestValue | tools/rfc8452.py:109-114 | as a little-endian number the digest is the state xored with the nonce, modulo 2^127, for every state and nonce |
| Polyval.UpdateSplit | tools/rfc8452.py:93-107 | two updates equal one update with the concatenation whenever the first length is a multiple of 16 |
| Polyval.ElementAt | tools/rfc8452.py:93-107 | element `i` of a text of whole blocks is its sixteen bytes from `16 * i` on, least significant first |
| Polyval.ThreeUpdates | tools/rfc8452.py:201-226 | three updates equal batch POLYVAL over padded data, padded text and length block, for any lengths |
| Polyval.ElementsInjective | tools/rfc8452.py:93-107 | cutting padded bytes into field elements loses nothing |
| GcmSiv.NewCipher | tools/rfc8452.py:158-175 | the derived authentication key has 16 bytes and the encryption key 16 or 32 |
| GcmSiv.DerivedKeys | tools/rfc8452.py:158-175 | eight bytes of each derived key are the first half of one enciphered block, and the blocks are numbered in order from 0 (authentication) and 2 (encryption) |
| GcmSiv.Cipher.AesCtr | tools/rfc8452.py:182-199 | the byte loop computes counter mode |
| GcmSiv.CtrByte | tools/rfc8452.py:182-199 | byte k of the output is byte k of the input xored with byte k mod 16 of the block enciphered from counter k div 16 |
| GcmSiv.CtrInvolution | tools/rfc8452.py:182-199 | counter mode is its own inverse |
| GcmSiv.CountersDistinct | tools/rfc8452.py:182-199 | no counter block is used twice within the permitted length, in spite of the 32-bit wrap |
| GcmSiv.Cipher.PolyvalCalc | tools/rfc8452.py:201-226 | enciphering the incremental digest gives the tag defined from batch POLYVAL |
| GcmSiv.Cipher.TagInputInjective | tools/rfc8452.py:201-226 | different pairs of text and additional data never give the same authenticated block list |
| GcmSiv.Cipher.LengthBlockRead | tools/rfc8452.py:201-226 | the length block holds both lengths in bits, for all permitted lengths |
| GcmSiv.Cipher.TagValue | tools/rfc8452.py:201-245 | the tag is the enciphered number that the POLYVAL sum of powers over padded data, padded text and lengths gives, xored with the nonce and taken modulo 2^127 |
| GcmSiv.Cipher.InitialCounterValue | tools/rfc8452.py:240-262 | the first counter block is the tag with bit 127 set, as numbers |
| GcmSiv.Cipher.SealedBytes | tools/rfc8452.py:228-245 | every byte of a sealed text: the text xored with the enciphered counter block of its position, and the tag behind it |
| GcmSiv.Cipher.EmptySealed | tools/rfc8452.py:228-245 | nothing sealed with no data is the enciphered nonce followed by four zero bytes |
| GcmSiv.Cipher.SizeErrors | tools/rfc8452.py:228-255 | which length error is raised, exactly when, on both sides |
| GcmSiv.Cipher.Encrypt | tools/rfc8452.py:228-245 | encryption is the keystream under the tag's counter followed by the tag, or the length errors |
| GcmSiv.Cipher.Decrypt | tools/rfc8452.py:247-276 | decryption with its or-ing comparison loop accepts exactly on equal tags, and otherwise gives the error that applies |
| GcmSiv.Cipher.AcceptedIffSealed | tools/rfc8452.py:228-276 | a ciphertext is accepted with a text exactly when encrypting that text gives that ciphertext |
| GcmSiv.Cipher.SealedInjective | tools/rfc8452.py:228-276 | different texts have different ciphertexts under the same additional data |
| Blowfish.EncipherPermutes | tools/bcrypt.py:527-545 | running the sixteen rounds backwards undoes the cipher, and the other way round, for any tables |
| Blowfish.EncipherInjective | tools/bcrypt.py:527-545 | distinct word pairs have distinct results |
| BlowfishFacts.FeistelBytes | tools/bcrypt.py:541-542 | on the word with bytes a, b, c, d the round function is ((S0[a] + S1[b]) xor S2[c]) + S3[d] modulo 2^32 |
| BlowfishFacts.EncipherIsTextbook | tools/bcrypt.py:527-545 | the unrolled double rounds are the textbook network: sixteen swapping rounds and two closing xors |
| Blowfish.ExpandZeros | tools/bcrypt.py:473-525 | the salted schedule with a zero salt is the unsalted schedule |
| BlowfishFacts.StreamWordBytes | tools/bcrypt.py:448-457 | a word of the cyclic stream is the next four bytes, the first one most significant |
| BlowfishFacts.XorKeyWord | tools/bcrypt.py:473-495 | word `j` of P is xored with word `j` of the repeated key |
| BlowfishFacts.ExpandPair | tools/bcrypt.py:473-525 | each of the 521 pairs of table words is the pair before it, xored with the next two salt words and enciphered under the tables that are new up to there and old from there on |
| BlowfishFacts.RekeyFirst | tools/bcrypt.py:572-574 | each of the rounds is the schedule of the password and then that of the salt |
| BCrypt.FeistelLow | tools/bcrypt.py:541-542 | the low 32 bits of the unmasked sum depend only on the low 32 bits of its inputs |
| BCrypt.HalfRoundLow | tools/bcrypt.py:539-542 | so half a round on growing integers truncates to half a round on words |
| BCrypt.BCrypt.Encipher | tools/bcrypt.py:527-545 | in-place enciphering of unbounded words truncates to the 32-bit cipher and leaves the other cells alone |
| BCrypt.BCrypt.InitKey | tools/bcrypt.py:464-471 | the tables are fresh copies of the originals |
| BCrypt.BCrypt.Key | tools/bcrypt.py:473-495 | the in-place key schedule truncates to the 32-bit schedule |
| BCrypt.BCrypt.EksKey | tools/bcrypt.py:497-525 | the in-place salted schedule truncates to the 32-bit salted schedule |
| BCrypt.BCrypt.EncipherText | tools/bcrypt.py:576-578 | the 64 final passes over the three pairs truncate to 64 passes of the 32-bit cipher |
| BCrypt.BCrypt.CryptRaw | tools/bcrypt.py:547-589 | for every password, salt and round count the unmasked computation returns the bytes, or the error, of the 32-bit computation |
| BlowfishFacts.RepeatPair | tools/bcrypt.py:576-578 | each pair of words is enciphered on its own, as often as the outer loop runs |
| BlowfishFacts.MagicIsText | tools/bcrypt.py:308-311 | the enciphered words are the text OrpheanBeholderScryDoubt, four characters to a word |
| BlowfishFacts.HashLength | tools/bcrypt.py:547-589 | admitted inputs give 24 bytes |
| BlowfishFacts.HashWords | tools/bcrypt.py:547-589 | the bytes of a hash are, pair by pair and most significant byte first, the text enciphered 64 times under the tables after all rounds |
| BlowfishFacts.Refused | tools/bcrypt.py:561-570 | which input is refused, exactly when |
| BCrypt.StreamToWord | tools/bcrypt.py:448-457 | the cyclic reader takes four bytes and moves the offset by four modulo the length |
| BCrypt.ToBytes | tools/bcrypt.py:580-589 | the output loop writes the truncated words most significant byte first |
| BlowfishFacts.BigEndianValue | tools/bcrypt.py:580-589 | four output bytes make their word, the first one most significant |
| BcryptBase64.TablesInverse | tools/bcrypt.py:313-349 | the decoding table is inverse to the encoding table, and maps nothing else to a sextet |
| BcryptBase64.CodeIsAlphabet | tools/bcrypt.py:313-320 | the codes are the alphabet `./A-Za-z0-9`, given in eight rows of eight characters |
| BcryptBase64.EncodeLoop | tools/bcrypt.py:352-388 | the loop encodes the first `length` bytes in groups of three, for all residues, or rejects the length |
| BcryptBase64.GroupIsNumber | tools/bcrypt.py:352-388 | three bytes are a 24-bit number and become its four sextets; shorter groups are prefixes of the group filled up with zeros |
| BcryptBase64.EncodeConcat | tools/bcrypt.py:352-388 | groups are encoded one after the other, in order |
| BcryptBase64.DecodeLoop | tools/bcrypt.py:391-445 | the loop decodes groups of four up to `maxlen` bytes, with every early stop and failure |
| BcryptBase64.SextetsAreNumber | tools/bcrypt.py:391-442 | four sextets are a 24-bit number and become its three bytes |
| BcryptBase64.IndexErrorIff | tools/bcrypt.py:391-445 | decoding leaves the table exactly if code point 128 is looked up: at a position that the lengths admit, with every earlier character legal, or with the other one of its pair in front |
| BcryptBase64.ChrErrorIff | tools/bcrypt.py:391-445 | decoding fails in `chr` exactly if the fourth character of a group is looked up and illegal |
| BcryptBase64.StartsWith | tools/bcrypt.py:411-442 | an illegal first character only ends the loop; 128 there and an illegal fourth character raise |
| BcryptBase64.FailingInputs | tools/bcrypt.py:411-442 | one input for each of these |
| BcryptBase64.RoundTrip | tools/bcrypt.py:352-445 | decoding an encoding gives back the bytes, cut to the limit, for every length and limit |
| Murmur.Mm3Hash | tools/pddbcommon.py:50-106 | the loop computes MurmurHash3 on 32-bit words, with the unmasked length in its first fold |
| Murmur.ReadTail | tools/pddbcommon.py:87-97 | the three tail branches collect the last one to three bytes |
| Murmur.TailIsPadded | tools/pddbcommon.py:87-97 | left-over bytes enter as the block they would be if the input went on with zeros |
| Murmur.PublishedTails | tools/pddbcommon.py:50-106 | the hashes of one, two and three bytes that are published for MurmurHash3 |
| Murmur.AbsorbInjective | tools/pddbcommon.py:71-85 | absorbing a block is injective in the state and in the block |
| Murmur.MixedBack | tools/pddbcommon.py:57-61 | the final mix behind its first fold has an inverse |
| Murmur.FinalInjective | tools/pddbcommon.py:55-106 | the finalization is injective for every length |
| Murmur.OneBlockDetected | tools/pddbcommon.py:50-106 | inputs that differ in one aligned block only have different hashes under every seed |
| Murmur.TailDetected | tools/pddbcommon.py:50-106 | inputs that differ in the tail only have different hashes under every seed |
| Murmur.PteDamageDetected | tools/pddbcommon.py:467-496 | damage to one word of a valid page-table entry other than the nonce word is always noticed |
| Murmur.SpaceUpdateDamageDetected | tools/pddbcommon.py:688-701 | damage to one word of a valid space update other than the seed word is always noticed |
| Murmur.PteNonceCollision | tools/pddbcommon.py:467-496 | two valid page-table entries that differ in the nonce word only |
| Murmur.UpdateSeedCollision | tools/pddbcommon.py:688-701 | two valid space updates that differ in the seed word only |
| Murmur.ProtectedWords | tools/pddbcommon.py:467-701 | exactly which words of the two records are protected against damage |
| KeyReader.ReadKey | tools/pddbcommon.py:187-215 | fails exactly on the first unmapped page; otherwise returns the window at the offset of the key of the pages that decrypt, put together; the assertion inside holds |
| KeyReader.AllReadableSlice | tools/pddbcommon.py:187-215 | when all pages decrypt, that is the slice of virtual memory from the start of the key, of an exact length |
| KeyReader.WholeSliceIff | tools/pddbcommon.py:187-215 | for every image: a key is read whole exactly if the visited pages that decrypt reach its end, which takes all of them; and then it is read right |
| KeyReader.ReadableFirst | tools/pddbcommon.py:187-215 | if the pages that decrypt come first, what is read is right as far as it goes |
| KeyReader.GapCloses | tools/pddbcommon.py:187-215 | with the first of two pages not decrypting, reading both yields the second in place of the first |
| KeyReader.UsualKeys | tools/pddbcommon.py:187-215 | keys at the head of a page, and keys inside one page, are |
| KeyReader.TruncatedKey | tools/pddbcommon.py:187-215 | a key of one page that begins one byte into a page loses its last byte |
| DictScan.SlotInPage | tools/pddbcommon.py:314-336 | a slot lies inside one page, at the index that the scan computes |
| DictScan.SlotsTile | tools/pddbcommon.py:272-319 | every address from the first dictionary on belongs to a slot of some dictionary |
| DictScan.SlotsDisjoint | tools/pddbcommon.py:272-319 | no address belongs to two slots |
| DictScan.Scan | tools/pddbcommon.py:314-361 | the skipping, caching loop reports what visiting every slot in order would report |
| DictScan.TrySlot | tools/pddbcommon.py:335-356 | one turn of the loop treats its slot like a plain visit and keeps the cache invariant |
| DictScan.Describe | tools/pddbcommon.py:163-215 | a slot is read as a key descriptor: no key, a key with its name and its gathered data, or missing data |
| DictScan.Source.ParseDescriptor | tools/pddbcommon.py:163-184 | a descriptor written field by field is read back: no key without its flag, missing data if a page of it is not mapped, and otherwise its name with the data at its start and length |
| DictScan.Source.AnnouncedCount | tools/pddbcommon.py:284-300 | the number of keys is the third word behind the journal number of the dictionary header |
| DictScan.CacheStep | tools/pddbcommon.py:335-340 | the cached page is the page of the slot whenever that page decrypts; otherwise it is used only in the last slot |
| DictScan.AtPageHead | tools/pddbcommon.py:328-334 | the skip by a whole page happens only at the first slot of a page |
| DictScan.Source.SkipPage | tools/pddbcommon.py:328-334 | skipping an unmapped page changes nothing |
| DictScan.Source.FoundCount | tools/pddbcommon.py:314-361 | whatever decrypts, the scan counts the valid keys and the stale last slots, up to the number wanted |
| DictScan.Source.CountRightIff | tools/pddbcommon.py:314-361 | the count is right exactly if there are keys enough or no stale slot |
| DictScan.Source.VisitEnters | tools/pddbcommon.py:335-356 | a stale slot enters only a key that is there already, so the keys are those of the slots, read from their own pages |
| DictScan.Source.StartSettled | tools/pddbcommon.py:284-318 | the scan starts in a state for which these results hold |
| DictScan.Source.NoKeyMissed | tools/pddbcommon.py:314-361 | whatever decrypts, if the scan ends short of the number wanted, every key of the dictionary is in the result with the data of its last slot |
| DictScan.Source.OnlyKeysReported | tools/pddbcommon.py:314-361 | whatever decrypts, what is reported stands in a slot of the dictionary |
| DictScan.Source.ReportedIff | tools/pddbcommon.py:314-361 | a key is reported exactly if the keys and stale slots before it leave room for it |
| DictScan.Source.CountedTwice | tools/pddbcommon.py:314-361 | a key in the last slot before a page that does not decrypt makes the count of a whole scan too high |
| DictScan.Source.StopsShort | tools/pddbcommon.py:314-361 | and makes a scan for two keys end with the count 2 and without the second key |
| DictScan.LossyHeader | tools/pddbcommon.py:284-300 | a dictionary of three pages whose header announces its two keys |
| DictScan.LossyScan | tools/pddbcommon.py:314-361 | its scan ends with the announced number and without the second key |
| FreeSpace.LoadFiled | tools/pddbcommon.py:643-655 | every tracked page is filed under its own address |
| FreeSpace.LoadLast | tools/pddbcommon.py:643-655 | a page is tracked exactly when some valid record names it, and the last such record counts |
| FreeSpace.PageWordFields | tools/pddbcommon.py:606-638 | page number, valid flag and journal number are read back from a word put together from all its fields |
| FreeSpace.TableWord | tools/pddbcommon.py:644-655 | word `i` of the table is read back from its four little-endian bytes |
| FreeSpace.TableAreaIs | tools/pddbcommon.py:734-736 | the table is read from its first page on, two pages or what is left of the image |
| FreeSpace.Fscb.constructor | tools/pddbcommon.py:643-655 | the loop over the decrypted table builds that map |
| FreeSpace.Fscb.TryReplaceBy | tools/pddbcommon.py:670-682 | a candidate replaces the tracked record exactly when it is valid, names a tracked page and has a higher journal |
| FreeSpace.Fscb.ReplayPage | tools/pddbcommon.py:754-763 | one log page is replayed entry by entry up to the first blank entry; an entry that is not a whole block raises |
| FreeSpace.ParseWord | tools/pddbcommon.py:688-704 | the page word of an update is read back from its bytes 8 to 11 |
| FreeSpace.PiecesJoined | tools/pddbcommon.py:713-757 | piece `i` is what starts at `n * i`, up to `n` bytes of it, and the pieces cover everything |
| FreeSpace.EntriesAre | tools/pddbcommon.py:754-763 | a page of the log holds its entries in order up to the first blank or short one |
| FreeSpace.WholePagesNotTorn | tools/pddbcommon.py:754-763 | that happens only in a page that is cut short |
| FreeSpace.SortPages | tools/pddbcommon.py:713-732 | blank, update and table pages of any length are told apart, update pages keep their order, and the first table page is found |
| FreeSpace.BodyOf | tools/pddbcommon.py:718-732 | a page belongs to the log exactly if its first 16 bytes are blank and its next 16 are not, and counts without those |
| FreeSpace.BodiesConcat | tools/pddbcommon.py:718-732 | pages are sorted one by one, in order |
| FreeSpace.LogConcat | tools/pddbcommon.py:754-763 | the log is that of the pages one after the other |
| FreeSpace.DecodeFscb | tools/pddbcommon.py:707-763 | the result is the replay of the whole log over the words of the decrypted table that begins at the first table page, or nothing without key or table page, or the exception of table or entry |
| FreeSpace.ReplayFiled | tools/pddbcommon.py:670-763 | replaying any log keeps the set of tracked pages and files every record under its own address |
| FreeSpace.ReplayWinner | tools/pddbcommon.py:670-763 | each page ends with its record of highest journal, the earliest one on ties |
| FreeSpace.ReplayOrder | tools/pddbcommon.py:670-763 | with distinct journals per page the order of the log does not matter, nor do repetitions |
| Bip39.MaskClears | tools/pddbcommon.py:1186-1189 | the 32-bit mask keeps exactly the bits below the byte taken out |
| Bip39.Drain | tools/pddbcommon.py:1179-1189 | the bucket loop conserves value: bytes and bucket together are the indices read as one big-endian number |
| Bip39.EncodeIff | tools/pddbcommon.py:1179-1206 | indices split into these bytes and checksum exactly when they encode these bytes and the checksum matches |
| Bip39.ChecksumTop | tools/pddbcommon.py:1196-1203 | the checksum is the digest byte divided by two to the power of the bits left out, that is its top bits |
| Bip39.EncodeNumber | tools/pddbcommon.py:1179-1206 | indices encode the bytes exactly if as a number in base 2048 they are the bytes, shifted by the checksum, plus the top digest bits |
| Bip39.ZeroPhrase | tools/pddbcommon.py:1179-1206 | the published phrase of sixteen zero bytes: eleven times index 0, then index 3 |
| Bip39.Decode | tools/pddbcommon.py:1179-1206 | decoding returns some entropy exactly when the indices are its encoding with its checksum, for every permitted length |
| Bip39.WordsRoundTrip | tools/pddbcommon.py:1171-1177 | with distinct words, looking the words of indices up again gives the indices |
| Bip39.PhraseIff | tools/pddbcommon.py:1171-1206 | words of the list mean some entropy exactly if they are the phrase for it |
| Bip39.DecodePhrase | tools/pddbcommon.py:1168-1206 | the length error, the first word that is not in the list, and otherwise: with distinct words, decoding returns some entropy exactly if the words are its phrase |
| FlashChip.BlockInside | emulation/peripherals/MXIC_MX66UM1G45G.cs:641-677 | the aligned block around any address in range lies inside the memory |
| FlashChip.Flash.EraseAt | emulation/peripherals/MXIC_MX66UM1G45G.cs:641-677 | the in-place erase fills exactly the aligned 4 KiB or 64 KiB block with 0xff |
| FlashChip.Flash.HandleNoDataCommand | emulation/peripherals/MXIC_MX66UM1G45G.cs:577-616 | an erase happens only with the latch set and the address in range |
| FlashChip.Flash.WriteToMemory | emulation/peripherals/MXIC_MX66UM1G45G.cs:679-697 | one byte is written at address plus count, or none past the end |
| FlashChip.Flash.HandleData | emulation/peripherals/MXIC_MX66UM1G45G.cs:350-575 | the data phase of each operation, its reply and its effect on memory and mode |
| FlashChip.Flash.RecognizeCommand | emulation/peripherals/MXIC_MX66UM1G45G.cs:248-348 | which operation, phase and latch each command byte leads to |
| FlashChip.Flash.Transmit | emulation/peripherals/MXIC_MX66UM1G45G.cs:95-141 | one byte exchange in SPI or OPI mode |
| FlashChip.Flash.FinishTransmission | emulation/peripherals/MXIC_MX66UM1G45G.cs:53-79 | the end of a transmission drops the latch after a program, erase or register write |
| FlashChip.Flash.ResetDevice | emulation/peripherals/MXIC_MX66UM1G45G.cs:81-93 | a reset leaves OPI mode, drops the latch and keeps the memory |
| FlashRuns.LatchStep | emulation/peripherals/MXIC_MX66UM1G45G.cs:53-141 | after any event the latch is set exactly when the event set it or it was set and not dropped |
| FlashRuns.ChangeIsGuarded | emulation/peripherals/MXIC_MX66UM1G45G.cs:350-697 | an event changes memory only with the latch set, and then writes one byte in range or erases one aligned block inside memory |
| FlashRuns.ChangeHasCause | emulation/peripherals/MXIC_MX66UM1G45G.cs:53-697 | in every run from a cleared latch, a change has an earlier write-enable with nothing in between that drops the latch |
| FlashRuns.OwnWriteEnable | emulation/peripherals/MXIC_MX66UM1G45G.cs:53-697 | two transmissions that change memory have a write-enable of their own between them |
| Spinor.BetrustedSpinor.WriteCommand | emulation/peripherals/BetrustedSpinor.cs:41-106 | a write to the command register runs the whole transmission, queues included |
| Spinor.BetrustedSpinor.SendWords | emulation/peripherals/BetrustedSpinor.cs:74-77 | the write half takes pairs of bytes from the queue, and 0xff once it is empty |
| Spinor.BetrustedSpinor.ReceiveWords | emulation/peripherals/BetrustedSpinor.cs:98-101 | the read half queues each reply followed by a zero |
| Spinor.BetrustedSpinor.Reset | emulation/peripherals/BetrustedSpinor.cs:142-149 | a reset of the controller clears its registers, resets the chip, forgets OPI mode and keeps the queues |
| Spinor.BetrustedSpinor.HandleTxFifoWrite | emulation/peripherals/BetrustedSpinor.cs:151-155 | a 16-bit write queues its low byte and then its high byte |
| Spinor.BetrustedSpinor.HandleRxFifoRead | emulation/peripherals/BetrustedSpinor.cs:157-177 | a read takes up to four bytes and returns them as a little-endian number |
| Spinor.BetrustedSpinor.SwitchSpiToOpi | emulation/peripherals/BetrustedSpinor.cs:208-246 | the start-up transactions are sent once |
| Spinor.BetrustedSpinor.TransmitTransaction | emulation/peripherals/BetrustedSpinor.cs:248-253 | a byte sequence as one transmission |
| FlashCommands.WriteEnable | emulation/peripherals/MXIC_MX66UM1G45G.cs:268-272 | through the controller, write-enable sets the latch and nothing else |
| FlashCommands.WriteDisable | emulation/peripherals/MXIC_MX66UM1G45G.cs:273-277 | write-disable clears the latch and nothing else |
| FlashCommands.EraseCommand | emulation/peripherals/MXIC_MX66UM1G45G.cs:577-677 | through the controller, an erase clears the aligned block around its argument if the latch is set, and drops the latch |
| FlashCommands.ProgramCommand | emulation/peripherals/MXIC_MX66UM1G45G.cs:350-401 | through the controller, a program lays the queued bytes over memory from its argument on if the latch is set, and drops the latch |
| FlashCommands.ReadCommand | emulation/peripherals/MXIC_MX66UM1G45G.cs:494-575 | reading a register queues its value and leaves chip and latch alone |
| FlashCommands.IdCommand | emulation/peripherals/MXIC_MX66UM1G45G.cs:238-246 | an identification queues its bytes as the controller delivers them, every second one lost, and leaves everything else as it was |
| FlashCommands.SwitchedIsIdle | emulation/peripherals/BetrustedSpinor.cs:208-246 | the start-up sequence takes a chip from reset to idle in OPI mode with its memory kept and the latch clear |
| FlashCommands.FirstCommand | emulation/peripherals/BetrustedSpinor.cs:41-63 | so the first command after a reset is executed as on a connected controller |
| Updater.CommandRoundTrip | tools/usb_update.py:499-506 | the controller decodes from the or-ed command word exactly the fields that the host encoded, reduced to their widths |
| Updater.CommandSum | tools/usb_update.py:499-506 | the command word is the sum of its fields, each at its place and cut to its width |
| Updater.IdNeverMatches | tools/usb_update.py:656-666 | the first identification word is always 0xC2, which is not the word that the host waits for |
| Updater.UsableReady | tools/usb_update.py:522-527 | connected or fresh from a reset, the first command finds a connected controller and the memory as it was |
| Updater.UsableAfterReset | emulation/peripherals/BetrustedSpinor.cs:142-149 | a reset with nothing left to read leads there |
| Updater.PrecursorUsb.FlashRdid | tools/usb_update.py:522-527 | from a reset on, an identification read yields its word and leaves the system connected |
| Updater.PrecursorUsb.CheckId | tools/usb_update.py:656-666 | the two reads succeed exactly if the expected words are those of the chip, and change nothing |
| Updater.PrecursorUsb.BurstRead | tools/usb_update.py:427-457 | packets of 4096 bytes and a short last one together read exactly the range |
| Updater.PrecursorUsb.BurstWrite | tools/usb_update.py:459-493 | packets of 4096 bytes and a short last one together queue exactly the data, of any length |
| Updater.PrecursorUsb.FlashRdsr | tools/usb_update.py:508-513 | the status read returns the latch bit and changes nothing |
| Updater.PrecursorUsb.FlashRdscur | tools/usb_update.py:515-520 | the security register reads as zero and nothing changes |
| Updater.PrecursorUsb.FlashWren | tools/usb_update.py:529-533 | afterwards the latch is set and the memory unchanged |
| Updater.PrecursorUsb.FlashWrdi | tools/usb_update.py:535-539 | afterwards the latch is clear and the memory unchanged |
| Updater.PrecursorUsb.FlashSe4b | tools/usb_update.py:541-545 | a 4 KiB erase around the address |
| Updater.PrecursorUsb.FlashBe4b | tools/usb_update.py:547-551 | a 64 KiB erase around the address |
| Updater.PrecursorUsb.FlashPp4b | tools/usb_update.py:553-557 | the queued bytes are programmed at the address |
| Updater.PrecursorUsb.EnableWrites | tools/usb_update.py:678-682 | the polling loop ends, with the latch set |
| Updater.PrecursorUsb.WaitUntilIdle | tools/usb_update.py:689-690 | the wait for the busy bit ends and changes nothing |
| Updater.PrecursorUsb.ClearLatch | tools/usb_update.py:734-737 | afterwards the latch is clear |
| Updater.PrecursorUsb.EraseBlocks | tools/usb_update.py:608-643 | the erase loop clears exactly the whole 4 KiB subsectors that the length calls for, as far as there is memory, and issues 64 KiB erases only at aligned addresses inside the range |
| Updater.PrecursorUsb.EraseRegion | tools/usb_update.py:596-645 | behind the identification check, exactly that |
| Updater.PrecursorUsb.ProgramPages | tools/usb_update.py:706-732 | the program loop lays the data over memory in pieces of up to 256 bytes and leaves the queue empty |
| Updater.PrecursorUsb.FlashProgram | tools/usb_update.py:648-766 | from a reset on, with any queue and any announced size: refused out of bounds, refused on an unexpected identification, and then nothing changes; otherwise chip, controller and host together leave the erased range with the padded data, behind whatever was queued, on top and the latch clear; exactly when the readback passes, and how many errors it counts otherwise |
| Updater.EmptyQueue | tools/usb_update.py:706-732 | from an empty queue, that is the padded data |
| Updater.PrecursorUsb.CountErrors | tools/usb_update.py:744-760 | the readback loop counts the positions that differ |
| Updater.DifferencesAre | tools/usb_update.py:744-760 | the error count is the number of positions that differ |
| Updater.ReadbackIff | tools/usb_update.py:742-760 | after any update the readback passes exactly if every byte went out in its place, or the bus yields it behind the flash |
| Updater.ReadsRightIff | tools/usb_update.py:742-760 | from an empty queue and in range, exactly if padding behind the flash reads as erased |
| Updater.PaddingSticksOut | tools/usb_update.py:706-709 | one byte at the last address of a flash has such padding |
| Updater.LeftoverShifts | tools/usb_update.py:710-732 | a byte left over in the queue makes the readback fail |
| Updater.PaddingInside | tools/usb_update.py:706-709 | in a flash of whole words at a whole word there is no such padding |
| Updater.FlashedByte | tools/usb_update.py:648-740 | at a 4 KiB boundary every byte of memory afterwards: the data, then 0xff to the end of the last subsector, and nothing else touched |
| Updater.NeighbourKept | tools/usb_update.py:668-704 | the byte in front of the data is left alone at a 4 KiB boundary, and erased elsewhere |
| Bitstream.BitflipLoop | tools/usb_update.py:768-779 | the loop reverses the bits of each 32-bit word, with a short last word widened |
| Bitstream.FlipWordBits | tools/usb_update.py:768-779 | bit `i` of a flipped word is bit `31 - i` of the word |
| Bitstream.BitflipWord | tools/usb_update.py:768-779 | word `j` of the result is word `j` of the input, flipped, also for a short last word |
| Bitstream.BitflipBits | tools/usb_update.py:768-779 | so in every whole word of a byte string bit `i` is bit `31 - i` of the same word before |
| Bitstream.BitflipLength | tools/usb_update.py:768-779 | the result is as long as the input rounded up to four |
| Bitstream.BitflipTwiceIff | tools/usb_update.py:768-779 | flipping twice gives back the input exactly for multiples of four bytes |
| Bitstream.BitflipConcat | tools/usb_update.py:768-779 | flipping commutes with concatenation after a multiple of four bytes |
| Bitstream.XorBytesLoop | tools/usb_update.py:782-789 | the bytewise xor over the first argument; a shorter second one raises |
| Bitstream.FindMarkers | tools/usb_update.py:815-825 | the search stops at the first length marker and remembers the last vector marker before it |
| Bitstream.HashLoop | tools/usb_update.py:878-884 | feeding the hash 16 bytes at a time feeds it exactly the flipped plaintext without its last 320 bytes |
| Bitstream.ReplacedKeeps | tools/usb_update.py:865-904 | the new plaintext has the old length and the old body, and its header unmasks to the new HMAC key |
| Bitstream.ReplacedFramed | tools/usb_update.py:865-904 | the new plaintext read for itself: both masks, the key under each, the place of the first hash with its padding, and the last hash over the footer and the first one |
| Bitstream.Crypto.NewPlaintext | tools/usb_update.py:865-904 | the statements that build the new plaintext build that |
| Bitstream.Crypto.EncryptToEfuse | tools/usb_update.py:800-920 | the whole re-encryption, with the failures of the cipher on malformed input |
| Bitstream.Crypto.PostambleFollows | tools/usb_update.py:826-831 | what is kept behind the ciphertext is exactly what follows it in the image |
| Bitstream.Crypto.ShippedPlain | tools/usb_update.py:800-836 | an image laid out with a clean vector and a fitting length, encrypted under 32 zero bytes, is read as the plaintext in it |
| Bitstream.Crypto.BodyRecovered | tools/usb_update.py:800-920 | decrypting the output under the new key and vector gives the old body and the new HMAC key |
| Bitstream.Crypto.MarkersFoundIff | tools/usb_update.py:815-864 | the search finds vector and length of an output in their places exactly when no command word occurs by chance in or around the new vector |
| Bitstream.Crypto.ReadsBackIff | tools/usb_update.py:815-864 | and it reads exactly the ciphertext if and only if moreover the fixed length command fits |
| Bitstream.Crypto.OutputReadable | tools/usb_update.py:800-920 | then the same search on the output yields the new plaintext under the new key |
| Bitstream.UncleanVector | tools/usb_update.py:815-825 | a vector that begins like a length command once it is in the image is not clean |
| Bitstream.CleanVector | tools/usb_update.py:815-825 | one without the byte 0x30 is |
| Bitstream.BothKinds | tools/usb_update.py:815-825 | both kinds exist |
| Jtag.BetrustedJtag.AdvanceStateMachine | emulation/peripherals/Jtag.cs:120-289 | the transition relation of the state diagram in section 6.1 of IEEE Std 1149.1 |
| JtagRuns.Ways | emulation/peripherals/Jtag.cs:120-289 | the ways between reset, idle, the shift and pause states and the updates, as the values of the mode wire that lead there |
| JtagRuns.FromReset | emulation/peripherals/Jtag.cs:120-289 | from reset four clocks lead to the capture of an instruction |
| Jtag.BetrustedJtag.Next | emulation/peripherals/Jtag.cs:27-92 | one clocked write: register action of the old state, then the transition |
| Jtag.FiveOnesReset | emulation/peripherals/Jtag.cs:120-289 | five ones lead to Test-Logic-Reset from every state |
| Jtag.Scan | emulation/peripherals/Jtag.cs:27-92 | from a capture on, over any run with any pauses, the register holds the bits shifted in so far |
| Jtag.CollectedBit | emulation/peripherals/Jtag.cs:48-75 | a bit of the register is set exactly when some shift at that position modulo 64 was a one |
| Jtag.CollectedSum | emulation/peripherals/Jtag.cs:48-75 | up to 64 shifts the register is the number whose bits were shifted in, least significant first |
| Jtag.CollectedSumIff | emulation/peripherals/Jtag.cs:48-75 | for any number of shifts it is that number exactly if no bit from position 64 on is set |
| Jtag.DataScanDrives | emulation/peripherals/Jtag.cs:27-105 | the i-th shift of a data scan drives bit i of the output value, over any run with any pauses |
| Jtag.IdcodeStays | emulation/peripherals/Jtag.cs:27-92 | once instruction 9 has passed Update-IR, the output value is the IDCODE for ever |
| Jtag.IdcodeRead | emulation/peripherals/Jtag.cs:27-105 | an instruction scan of 9 followed by any run makes every later data scan read the IDCODE |
| JtagRuns.HostReadsIdcode | emulation/peripherals/Jtag.cs:27-105 | a host that shifts in instruction 9, with or without a pause in between, and then reads, is sent bit after bit of the identification code |

## Left out

- The kernel, the services, baremetal and build code, and the remaining emulated peripherals: hardware pokes and register callbacks.
- AES, SHA-2, CBC and key derivation: parameters with only the laws named above.
- The text layer of bcrypt (`hashpw`, `gensalt`, `checkpw`) and the fixed Blowfish tables.
- `decode_pagetable`, basis roots, key extraction and printing in the PDDB decoder: lookups and formatting around the modelled parts.
- USB transfers, CSR loading, argument parsing and file handling in `tools/usb_update.py`.
- The second copies of the flash host in `tools/backup.py` and `tools/restore.py`.
- The backing file of the flash chip.
- That the field polynomial is irreducible, which would give every nonzero key of POLYVAL an inverse.
- Polyval.OneBlockSeen: needs the inverse of the key; `Polyval.AllSeenIff` shows that it cannot do without.
- FlashChip.Flash.WriteToMemory: a write at exactly the memory size is dropped like one behind it; the source hands it to a memory class that is not part of the repository.
- Updater.ReadbackIff: for data that stick out of the flash it rests on that write being dropped.
- Die erase and fast read of the chip, which no command byte reaches.
- Murmur.Mm3Hash: inputs of 2^53 bytes and more, whose blocks floating point cannot count, and seeds of more than 32 bits, which no caller passes.
- The checksum at the end of key data, which is only logged.
- Bitstream.Crypto.OutputReadable: one direction only, because with an abstract cipher nothing can be said about what a misread ciphertext decrypts to.
- Updater.PrecursorUsb.FlashProgram: the expected identification is an argument, because with the real constants the emulated chip never gets past that check.
