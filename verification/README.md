# BTC-STofu-Parser, modelled and proved in Dafny

BTC-STofu-Parser reads Bitcoin Core block files, optionally XOR-obfuscated, and turns them into blocks,
transactions and addresses. This project models its two computing components and proves what they
promise.

**Addresses.** `ConvertBits`, `Bech32Checksum`, `Bech32Burst`, `Bech32Polynomial`, `Bech32Symbols`, `Bech32`,
`Bech32Decoder` and `Bech32RoundTrip` hold the segregated witness address codec: the bit regrouping with its
wrapping 32-bit accumulator, the cyclic checksum over `bv32` words and the polynomial division that it
computes, the encoder, and a decoder written as specification, which shares no constant with the encoder. `Base58`, `Base58Check`
and `Base58RoundTrip` do the same for Base58Check. `ScriptTemplates` and `TransactionScriptParser`
classify scripts and attach addresses to them.

**Block files.** `FileReader` models the file stream as a state machine (position, failbit, eofbit) under
the `FileReader` class; `Obfuscation` and `BitcoinReader` add the cached position and the key. The parser
classes in `TransactionParser` and `BlockParsers` move one shared reader, as the C++ classes do. Each of
their methods is proved to agree with a parse function of the de-obfuscated file and the position
(`Agrees`: same value or same error code, and in both cases the same position). `Formats`, `Transactions`
and `Blocks` define those parse functions and, independently, *wire values* together with their
serialisations; a wire value records also which CompactSize form was written. Soundness and completeness
between the two are the main results about the file format: a file is accepted if and only if it is tiled
by frames of valid blocks (`BlockFiles.FileIsTiled`). `TransactionSerializer` and `TransactionCanonical`
relate parsed transactions to their shortest serialisations, `CountedLoops` bounds what a count can make
the parser do. `BlockFailures` says which bytes lead to which error, `BlockHashes` which bytes are hashed.

SHA-256 and RIPEMD-160 are arbitrary functions with 32- and 20-byte results (`Hashing.Hashes`), passed as
a parameter, so every statement holds for all hash functions. Standards: BIP 144 section "Serialization",
BIP 173 sections "Bech32" and "Checksum", BIP 350 section "Bech32m".

## Where the code and its descriptions part

The model follows the code.

- Leading zero bytes are counted before the checksum is appended, so an address does not preserve all of
  them when version and payload are all zero and the checksum starts with a zero byte. Of the addresses
  that the code makes this concerns the P2PKH address of the zero hash alone, and whether it happens there
  depends on the hash function. `Base58RoundTrip.RoundTrip` gives the exact condition,
  `Base58RoundTrip.RoundTripCanFail` the case.
- The transaction hash of a segregated witness transaction is taken over marker, flag and witnesses too;
  it is the BIP 144 txid pre-image for legacy transactions only. `TransactionProperties.HashPreimage` says
  exactly when, in terms of the bytes read; `TransactionProperties.HashIsNotTxidExample` gives a
  transaction for which more than that is hashed.
- A legacy transaction without inputs and with one output starts like marker and flag and is read as a
  segregated witness one. `TransactionProperties.ReadBackExactly` proves that no other valid transaction
  is misread.
- CompactSize numbers in a longer form than necessary are accepted; soundness is therefore stated over
  wire values, the serialiser of `TransactionSerializer` uses minimal forms, and
  `TransactionCanonical.ParseSerialize` says when it reproduces the bytes read.
- Several error branches cannot be reached: a successful read is never short, integer conversion and
  de-obfuscation never fail after a successful read, and hashing a transaction just parsed never fails. They appear as `assert false` in the methods.

## Model

| member | source | states |
|---|---|---|
| Common.BitOrDisjoint | src/btc-parser/Utils.cpp:37-40 | "or"-ing into the zero bits that a left shift leaves adds the value |
| BitStrings.GroupsOfFlatBits | src/btc-parser/TransactionScriptParser.cpp:451-464 | regrouping a bit string at the width it was built with gives the symbols back, whatever incomplete tail follows |
| BitStrings.FlatBitsOfGroups | src/btc-parser/TransactionScriptParser.cpp:451-466 | without padding the emitted symbols fit their width and spell the bit string up to less than one group |
| BitStrings.FlatBitsOfPaddedGroups | src/btc-parser/TransactionScriptParser.cpp:462-464 | with padding they spell all bits followed by fewer zeros than one group |
| ConvertBits.Convert | src/btc-parser/TransactionScriptParser.cpp:434-467 | for all bytes and all widths with fromBits + toBits - 1 <= 32, the wrapping 32-bit accumulator gives what a queue of bits gives, into which every byte is laid over the bits pending and from which whole groups are taken; when the bytes fit fromBits this is the big-endian regrouping of their bit string, padded or not; every symbol is below 2^toBits |
| ConvertBits.AbsorbSymbol | src/btc-parser/TransactionScriptParser.cpp:453-454 | the shift and "or" of the accumulator lay a byte over the pending bits; bits shifted out of the 32 are never among them |
| ConvertBits.EmitSymbol | src/btc-parser/TransactionScriptParser.cpp:456-460 | shifting and masking the accumulator cut out the oldest group of the queue |
| ConvertBits.RegroupedIsGrouped | src/btc-parser/TransactionScriptParser.cpp:451-466 | the queue regroups values that fit their width as one big-endian bit string, also when bits are already pending |
| ConvertBits.RegroupRoundTrip | src/btc-parser/TransactionScriptParser.cpp:411-412 | bytes regrouped to 5 bits with padding and back to 8 without are unchanged |
| ConvertBits.RegroupLength | src/btc-parser/TransactionScriptParser.cpp:450-466 | a padded regrouping has ceil(n * fromBits / toBits) symbols |
| ConvertBits.ConvertThereAndBack | src/btc-parser/TransactionScriptParser.cpp:434-467 | the two conversions one after the other restore every byte sequence |
| Bech32Polynomial.Polymod | src/btc-parser/TransactionScriptParser.cpp:503-524 | for every sequence of 5-bit symbols the six 5-bit groups of the result are the coefficients of the remainder, modulo the generator polynomial of BIP 173 over GF(32), of the polynomial whose coefficients are 1 and then the symbols |
| Bech32Polynomial.StepReduces | src/btc-parser/TransactionScriptParser.cpp:514-521 | one step of the register appends a coefficient and takes the multiple of the generator polynomial away that removes the leading one |
| Bech32Polynomial.RegisterIsRemainder | src/btc-parser/TransactionScriptParser.cpp:503-524 | the register as a remainder by long division, for every sequence of symbols |
| Bech32Polynomial.DivisionWithRemainder | src/btc-parser/TransactionScriptParser.cpp:503-524 | the remainder by long division differs from the dividend by a multiple of the generator polynomial |
| Bech32Polynomial.CoefficientOfGenerators | src/btc-parser/TransactionScriptParser.cpp:505-521 | the generators selected by a 5-bit number spell the product of that number with the polynomial |
| Bech32Checksum.StepIsLinear | src/btc-parser/TransactionScriptParser.cpp:517-521 | one step is linear over GF(2), jointly in register and symbol |
| Bech32Checksum.StepIs30Bits | src/btc-parser/TransactionScriptParser.cpp:517-521 | after a 5-bit symbol the register holds at most 30 bits, whatever it held before |
| Bech32Checksum.GeneratorSumIsInjective | src/btc-parser/TransactionScriptParser.cpp:505-521 | the low five bits of the five generators form an invertible matrix |
| Bech32Checksum.StepIsInjective | src/btc-parser/TransactionScriptParser.cpp:517-521 | a non-zero 30-bit difference survives every step without input |
| Bech32Burst.PolymodDifference | src/btc-parser/TransactionScriptParser.cpp:503-524 | the checksums of two sequences differ by the run over their difference |
| Bech32Burst.SixSymbolsArePacked | src/btc-parser/TransactionScriptParser.cpp:512-523 | up to six symbols fit side by side in an empty register, so a non-zero one leaves it non-zero |
| Bech32Burst.BurstDetected | src/btc-parser/TransactionScriptParser.cpp:503-524 | two different symbol sequences of the same length, all differences among six consecutive positions, have different checksums, at every length |
| Bech32Burst.ChecksumSymbolsRebuild | src/btc-parser/TransactionScriptParser.cpp:553-559 | absorbing the six symbols cut out of a 30-bit value into an empty register rebuilds the value |
| Bech32Burst.CreatedChecksumVerifies | src/btc-parser/TransactionScriptParser.cpp:543-561 | for every symbol sequence and every 30-bit target, the sequence closed with the symbols made from its polymod has the target as its checksum |
| Bech32.HrpExpand | src/btc-parser/TransactionScriptParser.cpp:475-494 | character codes divided by 32: the quotients of all characters, a zero, the remainders of all characters |
| Bech32.HrpExpandSymbols | src/btc-parser/TransactionScriptParser.cpp:475-494 | all expanded values are 5-bit symbols |
| Bech32.CreateBech32Checksum | src/btc-parser/TransactionScriptParser.cpp:533-562 | six 5-bit symbols with which prefix and data verify: the polynomial of all of them leaves the xor value as its remainder |
| Bech32.ChecksumVerifies | src/btc-parser/TransactionScriptParser.cpp:533-562 | the created checksum always verifies |
| Bech32.ChecksumIsUnique | src/btc-parser/TransactionScriptParser.cpp:533-562 | it is the only six symbols that do |
| Bech32.Encode | src/btc-parser/TransactionScriptParser.cpp:394-425 | the address text: prefix, separator, then version, regrouped program and checksum spelled in the charset |
| Bech32RoundTrip.DecodeEncode | src/btc-parser/TransactionScriptParser.cpp:394-425 | a decoder that follows BIP 173 and BIP 350, with its own alphabet, prefix expansion, residues and polynomial division, recovers exactly prefix, version and program from every encoded address |
| Bech32RoundTrip.ChecksumAgrees | src/btc-parser/TransactionScriptParser.cpp:394-425 | the register reaches the constant chosen for the version if and only if the polynomial of the whole address leaves the specified residue |
| Bech32RoundTrip.AddressIsInjective | src/btc-parser/TransactionScriptParser.cpp:394-425 | different (version, program) pairs have different addresses |
| Bech32RoundTrip.AddressLength | src/btc-parser/TransactionScriptParser.cpp:215-278 | main-net addresses have 42 characters for 20-byte and 62 for 32-byte programs |
| Bech32RoundTrip.CorruptionRejected | src/btc-parser/TransactionScriptParser.cpp:394-425 | a valid address in which up to six consecutive characters behind the separator are replaced, none of them by the separator character, does not decode; the version character may be among them as long as it does not change from or to version 0, which selects the checksum constant |
| Bech32RoundTrip.PrefixCorruptionRejected | src/btc-parser/TransactionScriptParser.cpp:394-425 | a valid address whose two-character prefix is replaced by a different one of two characters does not decode |
| Base58.AbsorbByte | src/btc-parser/TransactionScriptParser.cpp:364-377 | one input byte turns digits of value n into canonical digits of value 256 n + byte, at most two digits more |
| Base58.DivisionStep | src/btc-parser/TransactionScriptParser.cpp:366-371 | a step of the division loop makes one more digit final and leaves a carry below 256 to be worked into the untouched digits |
| Base58.CanonicalIsUnique | src/btc-parser/TransactionScriptParser.cpp:362-378 | digits below 58 with a non-zero top digit are determined by their value |
| Base58Check.Encode | src/btc-parser/TransactionScriptParser.cpp:338-385 | one '1' per leading zero byte of version and payload, then the base-58 text of version, payload and checksum read as one number |
| Base58RoundTrip.TextIsInjective | src/btc-parser/TransactionScriptParser.cpp:380-384 | the text determines both the number of leading zeros and the number encoded |
| Base58RoundTrip.RoundTrip | src/btc-parser/TransactionScriptParser.cpp:346-384 | the specification decoder recovers version, payload and the first four bytes of their SHA-256 of SHA-256 if and only if version and payload are not all zero or the first checksum byte is not zero |
| Base58RoundTrip.RoundTripCanFail | src/btc-parser/TransactionScriptParser.cpp:239-260 | the P2PKH address of the zero hash does not decode to its bytes under a hash function whose digest starts with a zero byte |
| Base58RoundTrip.AddressIsInjective | src/btc-parser/TransactionScriptParser.cpp:338-385 | at a fixed byte length the encoding is injective for every hash function |
| Base58RoundTrip.P2shAddressShape | src/btc-parser/TransactionScriptParser.cpp:251-260 | every P2SH address has 34 characters and starts with '3' |
| Base58RoundTrip.P2pkhAddressShape | src/btc-parser/TransactionScriptParser.cpp:239-248 | every P2PKH address starts with '1' and has at most 34 characters |
| ScriptTemplates.PatternsAreExact | src/btc-parser/TransactionScriptParser.cpp:52-166 | the five pattern tests together accept exactly the scripts of the standard conditions, written out byte by byte, and determine the condition |
| TransactionScriptParser.ParseOutputScript | src/btc-parser/TransactionScriptParser.cpp:229-282 | an address if and only if the script is one of the five standard ones over their literal bytes, and then one that decodes to the version and the hash or key in it (with the exact exception); the text for data carriers if and only if the first byte is 0x6A, otherwise the text for unknown scripts |
| TransactionScriptParser.ParseInputScript | src/btc-parser/TransactionScriptParser.cpp:202-220 | an address if and only if the script is the push 16 00 14 of twenty bytes or starts with two pushes, and then one that decodes to these bytes or to RIPEMD-160 of SHA-256 of the second push (with the exact exception) |
| TransactionScriptParser.DecodeScriptSigP2PKH | src/btc-parser/TransactionScriptParser.cpp:293-320 | the second push is hashed and encoded; a script too short for two pushes is unknown |
| TransactionScriptParser.LockAddressStart | src/btc-parser/TransactionScriptParser.cpp:229-282 | the first character is '1', '3' or 'b' according to the kind of condition |
| TransactionScriptParser.OutputAddressIsInjective | src/btc-parser/TransactionScriptParser.cpp:229-282 | two different recognised scripts have different addresses, within and across templates, for all hash functions |
| TransactionScriptParser.AnswersAreUnambiguous | src/btc-parser/TransactionScriptParser.cpp:229-282 | the answer OP_RETURN or Unknown is given exactly for scripts that start with 0x6A and for unrecognised other ones |
| TransactionScriptParser.OutputAnswer | src/btc-parser/TransactionScriptParser.cpp:229-282 | the same of the function that specifies the answer for outputs |
| TransactionScriptParser.InputAnswer | src/btc-parser/TransactionScriptParser.cpp:202-220 | the same of the function that specifies the answer for inputs |
| TransactionScriptParser.OutputAddressDecodes | src/btc-parser/TransactionScriptParser.cpp:229-282 | decoding an output address restores version and program, or version byte, hash and checksum; for public-key hashes with the exact exception |
| TransactionScriptParser.SpendingMatchesLocking | src/btc-parser/TransactionScriptParser.cpp:202-220 | an input pushing signature and public key, followed by anything, gets the address of the P2PKH output for RIPEMD-160 of SHA-256 of that key |
| TransactionScriptParser.NestedMatchesNative | src/btc-parser/TransactionScriptParser.cpp:207-216 | the nested redeem push gets the address of the native P2WPKH script |
| TransactionScriptParser.InputUnderstood | src/btc-parser/TransactionScriptParser.cpp:202-220 | an input script is understood if and only if it is the push 16 00 14 of twenty bytes or starts with two pushes |
| LittleEndian.LeUint8ToUint | src/btc-parser/Utils.cpp:27-90 | the shift-and-or loop succeeds exactly on inputs of the right length and yields their little-endian value |
| LittleEndian.LeUint8ToInt32 | src/btc-parser/Utils.cpp:96-105 | the same for 32-bit two's complement numbers |
| LittleEndian.LeValueOfBytes | src/btc-parser/Utils.cpp:34-41 | decoding the little-endian bytes of a number that fits gives the number |
| LittleEndian.LeBytesOfValue | src/btc-parser/Utils.cpp:34-41 | encoding a decoded value at the same width gives the bytes |
| FileReader.FileReader.ReadBytes | src/btc-parser/FileReader.cpp:45-75 | a read succeeds exactly when the stream is good and the bytes are there, and then delivers exactly them; the shortened buffer is never produced |
| FileReader.FileReader.IsEof | src/btc-parser/FileReader.cpp:82-87 | end of file as peek reports it, with its effect on the stream flags |
| FileReader.FileReader.SetReadPosition | src/btc-parser/FileReader.cpp:94-97 | the effect of seekg on position and flags |
| FileReader.FileReader.GetReadPosition | src/btc-parser/FileReader.cpp:104-107 | the value and effect of tellg |
| Obfuscation.XorByteTwice | src/btc-parser/BitcoinReader.cpp:85 | combining a byte with the same key byte twice gives the byte back |
| Common.BitXorBit | src/btc-parser/BitcoinReader.cpp:85 | a bit of the combination is set if and only if it is set in exactly one of the two words |
| Obfuscation.XorAtBits | src/btc-parser/BitcoinReader.cpp:80-86 | bit j of byte i is set if and only if exactly one of bit j of the byte and bit j of key byte (offset + i) mod 8 is |
| Obfuscation.ViewBits | src/btc-parser/BitcoinReader.cpp:58-89 | so is every bit of the view of a file |
| Obfuscation.XorOfSlice | src/btc-parser/BitcoinReader.cpp:80-86 | de-obfuscating a slice with its absolute offset is slicing the de-obfuscated file |
| Obfuscation.ViewOfObfuscated | src/btc-parser/BitcoinReader.cpp:58-89 | the reader's view of an obfuscated file with its key is the plain file |
| BitcoinReader.RunKeepsCursor | src/btc-parser/BitcoinReader.cpp:98-375 | over every run of reads, seeks and end-of-file tests the cached position equals the stream's while nothing failed; every successful read has the requested length and no read reports an obfuscation failure |
| BitcoinReader.PerformSimulates | src/btc-parser/BitcoinReader.cpp:98-128 | one operation over the obfuscated file with the key does what it does over the plain file without one |
| BitcoinReader.RunSimulates | src/btc-parser/BitcoinReader.cpp:98-375 | so does every sequence of operations, from every state, failures included |
| BitcoinReader.BitcoinReader.Open | src/btc-parser/BitcoinReader.cpp:16-49 | opening fails exactly on a key file of fewer than eight bytes; otherwise the reader stands at the start of the view |
| BitcoinReader.BitcoinReader.XorObfuscation | src/btc-parser/BitcoinReader.cpp:58-89 | the in-place loop sets bit j of byte i if and only if exactly one of bit j of the byte and bit j of the key byte of its absolute offset mod 8 is set, although the offset arithmetic wraps at 64 bits |
| BitcoinReader.BitcoinReader.ReadData | src/btc-parser/BitcoinReader.cpp:98-128 | the state machine's step in every state; from a ready reader, the requested slice of the view |
| BitcoinReader.BitcoinReader.ReadDataUint | src/btc-parser/BitcoinReader.cpp:137-209 | the little-endian number at the position, for 2, 4 and 8 bytes |
| BitcoinReader.BitcoinReader.ReadDataInt32 | src/btc-parser/BitcoinReader.cpp:218-236 | the signed 32-bit number at the position |
| BitcoinReader.BitcoinReader.ReadDataArray32 | src/btc-parser/BitcoinReader.cpp:245-263 | the next 32 bytes in reverse order |
| BitcoinReader.BitcoinReader.ReadDataCompactSizeFrom | src/btc-parser/BitcoinReader.cpp:277-318 | the number that a CompactSize with the given first byte holds |
| BitcoinReader.BitcoinReader.ReadDataCompactSize | src/btc-parser/BitcoinReader.cpp:327-339 | the CompactSize number at the position |
| BitcoinReader.BitcoinReader.SetReadPosition | src/btc-parser/BitcoinReader.cpp:355-367 | the state machine's seek; a ready reader sent to a position in the file is ready there |
| BitcoinReader.BitcoinReader.IsEof | src/btc-parser/BitcoinReader.cpp:374-377 | from a ready reader, whether the position is the end of the file |
| Formats.CompactAtReads | src/btc-parser/BitcoinReader.cpp:277-339 | every number is read back from every CompactSize form that can hold it |
| Formats.CompactAtExplained | src/btc-parser/BitcoinReader.cpp:277-339 | whatever is accepted as CompactSize is one of the four forms of the number returned |
| Formats.Minimal | src/btc-parser/BitcoinReader.cpp:277-318 | the chosen form can hold the number and is the shortest that can |
| Formats.CountedReads | src/btc-parser/TransactionParser.cpp:189-214 | a count and that many serialisations are read back as that many values |
| Formats.CountedExplained | src/btc-parser/TransactionParser.cpp:189-214 | whatever a counted loop accepts is a count and that many serialisations |
| TransactionRoundTrip.TxInReads | src/btc-parser/TransactionParser.cpp:226-270 | every input serialisation is read back, with its address |
| TransactionRoundTrip.TxInExplained | src/btc-parser/TransactionParser.cpp:226-270 | whatever is accepted as an input is an input serialisation |
| TransactionRoundTrip.TxOutReads | src/btc-parser/TransactionParser.cpp:313-343 | every output serialisation is read back, with its address |
| TransactionRoundTrip.TxOutExplained | src/btc-parser/TransactionParser.cpp:313-343 | whatever is accepted as an output is an output serialisation |
| TransactionRoundTrip.WitnessIsFormat | src/btc-parser/TransactionParser.cpp:375-407 | witness stacks: completeness and soundness, items stored reversed |
| TransactionRoundTrip.BodyStart | src/btc-parser/TransactionParser.cpp:145-182 | a legacy body starts 00 01 exactly when there are no inputs and one output, both counts in short form |
| TransactionRoundTrip.TransactionReads | src/btc-parser/TransactionParser.cpp:65-123 | every valid transaction that does not look flagged is read back at any position, followed by anything, the position moved by exactly its length |
| TransactionRoundTrip.TransactionExplained | src/btc-parser/TransactionParser.cpp:65-123 | whatever is accepted as a transaction is, byte for byte, the serialisation of a valid one with the meaning returned |
| TransactionProperties.ReadBackExactly | src/btc-parser/TransactionParser.cpp:145-182 | a valid serialisation is read back as what it means if and only if it does not look flagged |
| TransactionProperties.MisreadExample | src/btc-parser/TransactionParser.cpp:163-170 | a valid transaction that is not read back as itself |
| TransactionProperties.TransactionIsLocal | src/btc-parser/TransactionParser.cpp:65-182 | the result depends only on the bytes between start and end, although the flag test reads ahead and rewinds |
| TransactionProperties.WitnessPerInput | src/btc-parser/TransactionParser.cpp:98-106 | one witness per input if flagged, none otherwise |
| TransactionProperties.HashPreimage | src/btc-parser/TransactionParser.cpp:115-120 | the hash is the reversed SHA-256 of SHA-256 of exactly the bytes consumed, which are the BIP 144 txid pre-image if and only if the two bytes behind the version are not 00 01 |
| TransactionProperties.HashIsNotTxidExample | src/btc-parser/TransactionParser.cpp:115-120 | a valid flagged transaction with one input, one output and an empty witness that is read back as itself and hashed over more than its txid pre-image |
| TransactionProperties.TransactionSize | src/btc-parser/TransactionParser.cpp:65-123 | at least 41 bytes per input, 9 per output, one per witness and witness item: no accepted 64-bit count exceeds the bytes behind it |
| TransactionProperties.TransactionFails | src/btc-parser/TransactionParser.cpp:65-123 | a transaction is only ever rejected with the reading error |
| TransactionProperties.TruncationDetected | src/btc-parser/TransactionParser.cpp:65-123 | cutting the file behind an accepted transaction changes nothing, cutting it anywhere within gives the reading error |
| TransactionSerializer.SerializeParse | src/btc-parser/TransactionParser.cpp:65-123 | every well-formed transaction survives minimal serialisation and parsing at any offset, except a legacy one with no inputs and one output |
| TransactionCanonical.ParseSerialize | src/btc-parser/TransactionParser.cpp:65-123 | the minimal serialisation of an accepted transaction is at most as long as the bytes it was read from, and equals them if and only if every CompactSize number in them is in its shortest form |
| TransactionCanonical.MinimalShrinks | src/btc-parser/BitcoinReader.cpp:277-318 | the minimal form is never longer than another one that fits, and as long only if it is the same |
| CountedLoops.IterationStarts | src/btc-parser/TransactionParser.cpp:200-210 | iteration i of a counted loop starts at least i times the least cost of an item behind the first one, and within the file |
| CountedLoops.FailsEarly | src/btc-parser/TransactionParser.cpp:200-210 | a count that the rest of the file has no room for ends in the error of the first item that is not there, at its position, after no more iterations than there is room for |
| CountedLoops.CountsAreBounded | src/btc-parser/TransactionParser.cpp:189-214 | a count of inputs, outputs, witness items or transactions with fewer than 41, 9, 1 or 10 bytes left for each is the reading error |
| TransactionParser.TransactionParser.ParseAllTransactions | src/btc-parser/TransactionParser.cpp:27-55 | agrees with the counted parse of transactions, errors and stopping position included |
| TransactionParser.TransactionParser.ParseOneTransaction | src/btc-parser/TransactionParser.cpp:65-123 | agrees with the transaction parse, although it rewinds and re-reads for the hash |
| TransactionParser.TransactionParser.ParseTransactionCounter | src/btc-parser/TransactionParser.cpp:131-137 | agrees with the CompactSize parse |
| TransactionParser.TransactionParser.ParseTransactionFlag | src/btc-parser/TransactionParser.cpp:145-182 | two bytes consumed if they are 00 01, otherwise the position is where it was |
| TransactionParser.TransactionParser.ParseAllTxIn | src/btc-parser/TransactionParser.cpp:189-214 | agrees with the counted parse of inputs |
| TransactionParser.TransactionParser.ParseTxIn | src/btc-parser/TransactionParser.cpp:226-270 | agrees with the input parse |
| TransactionParser.TransactionParser.ParseAllTxOut | src/btc-parser/TransactionParser.cpp:278-303 | agrees with the counted parse of outputs |
| TransactionParser.TransactionParser.ParseTxOut | src/btc-parser/TransactionParser.cpp:313-343 | agrees with the output parse |
| TransactionParser.TransactionParser.ParseAllWitnesses | src/btc-parser/TransactionParser.cpp:352-367 | agrees with the parse of the given number of witnesses |
| TransactionParser.TransactionParser.ParseWitness | src/btc-parser/TransactionParser.cpp:375-407 | agrees with the counted parse of reversed items |
| TransactionParser.TransactionParser.GetCurrentTransactionHash | src/btc-parser/TransactionParser.cpp:415-451 | the reversed SHA-256 of SHA-256 of the view between the two positions, the reader left at the second; the file error for a start that cannot be sought, the reading error for an end behind the file |
| Blocks.HeaderReads | src/btc-parser/BlockHeaderParser.cpp:32-81 | every serialised header is 80 bytes and is read back |
| Blocks.HeaderExplained | src/btc-parser/BlockHeaderParser.cpp:32-81 | whatever is accepted as a header is its 80-byte serialisation |
| Blocks.BlockHashPreimage | src/btc-parser/BlockHeaderParser.cpp:89-115 | the block hash is the reversed SHA-256 of SHA-256 of the serialisation of the very header that is parsed next |
| Blocks.FrameReads | src/btc-parser/SingleBlockParser.cpp:36-88 | every valid frame is read back as its block |
| Blocks.FrameExplained | src/btc-parser/SingleBlockParser.cpp:36-153 | whatever is accepted as a block is its frame: mainnet magic, the exact size of the body, the body |
| Blocks.BlockExtent | src/btc-parser/SingleBlockParser.cpp:36-88 | an accepted block takes at least 89 bytes and ten for each of its transactions, all within the file |
| Blocks.BlockTruncated | src/btc-parser/SingleBlockParser.cpp:36-88 | cutting the file behind an accepted block changes nothing, cutting it anywhere within gives the reading error |
| BlockFiles.FileIsTiled | src/btc-parser/BlockFileParser.cpp:28-53 | a file is accepted with given blocks if and only if it is the adjacent frames of valid blocks with these meanings |
| BlockFiles.FramesAreAdjacent | src/btc-parser/BlockFileParser.cpp:28-53 | each frame starts where the one before ends, magic and declared size (1 byte to 100 MiB) at its start, and the last ends at the end of the file |
| BlockFiles.TruncationExactly | src/btc-parser/BlockFileParser.cpp:36-52 | a prefix of an accepted file is accepted if and only if it ends between two frames, and then gives the blocks before the cut; every other prefix gives the reading error |
| BlockFailures.BlockFailure | src/btc-parser/SingleBlockParser.cpp:36-153 | a block is accepted if and only if the magic, a size from 1 to 104857600 and a body of that size stand at the position; each error is answered if and only if the bytes are such that it is due: wrong magic, size zero, size too large, a body that ends elsewhere, or bytes missing |
| BlockFailures.FileFailure | src/btc-parser/BlockFileParser.cpp:28-53 | a file is rejected with an error if and only if adjacent frames of valid blocks are followed by bytes for which that error is due |
| BlockHashes.FileIsHashed | src/btc-parser/BlockFileParser.cpp:28-53 | in every accepted file the hash of each block is the reversed SHA-256 of SHA-256 of bytes 8 to 88 of its frame, and that of each transaction the same of the transaction's own bytes, which lie side by side between the count and the end of the frame |
| BlockHashes.TransactionIsHashed | src/btc-parser/TransactionParser.cpp:65-123 | a transaction of a block in a file is read from its own bytes and hashed over them |
| BlockParsers.BlockHeaderParser.Parse | src/btc-parser/BlockHeaderParser.cpp:32-81 | agrees with the header parse |
| BlockParsers.BlockHeaderParser.GetBlockHash | src/btc-parser/BlockHeaderParser.cpp:89-115 | the reversed SHA-256 of SHA-256 of the next 80 bytes or the reading error, the position where it was |
| BlockParsers.SingleBlockParser.Parse | src/btc-parser/SingleBlockParser.cpp:36-88 | agrees with the block parse: same block or same error code, and same position |
| BlockParsers.SingleBlockParser.SizeDoesNotWrap | src/btc-parser/SingleBlockParser.cpp:79-81 | the 64-bit sum of the framing check does not wrap |
| BlockParsers.SingleBlockParser.ParseMagicNumber | src/btc-parser/SingleBlockParser.cpp:96-121 | the mainnet magic for F9 BE B4 D9, the wrong-magic error for four other bytes, the reading error for fewer |
| BlockParsers.SingleBlockParser.ParseBlockSize | src/btc-parser/SingleBlockParser.cpp:129-153 | the little-endian number of the next four bytes if it is from 1 to 104857600, or the error for an empty or too large block |
| BlockParsers.BlockFileParser.Parse | src/btc-parser/BlockFileParser.cpp:28-53 | the blocks of the file or the first error, and the position at which reading stopped, on success the end of the file |
| BlockParsers.ParseBothWays | src/btc-parser/BlockFileParser.cpp:28-53 | two readers, one over the obfuscated file with the key and one over the plain file without, give the same blocks or the same error and stop at the same position |

## Left out

- SHA-256 and RIPEMD-160 themselves: parameters with fixed result lengths.
- ConvertBits.Convert: widths are bounded by fromBits + toBits - 1 <= 32 and toBits < 31; beyond them pending bits are lost or the C++ shifts are not defined. The only caller uses 8 and 5.
- Bech32.Encode: assumes a version below 32; the code indexes its 32-character alphabet with it and is only called with 0 and 1.
- TransactionScriptParser.DecodeScriptSigP2PKH: assumes a non-empty script, which its only caller has checked before the first byte is read.
- TransactionParser.TransactionParser.ParseTxIn: lengths and counts that exceed the memory of the machine make the C++ containers throw; here such a read fails with the reading error, as memory is taken to be sufficient.
- CountedLoops.CountsAreBounded: speaks of the loops; the storage that the C++ reserves before them is not modelled, and for a count beyond the memory of the machine reserving it throws.
- TransactionParser.TransactionParser.GetCurrentTransactionHash: assumes a start not behind the finish; otherwise the size wraps and the C++ container throws.
- Errors of the file system below the stream: the contents of a file do not change and every byte that exists can be read. Path extension checks are not modelled.
- `toTime`, `hashToHexString`, JSON and console printing, logging, configuration, wide-character conversion and directory listing: formatting and operating-system plumbing.
- `BlockParser.cpp` and `ConsoleBlockPrinter.cpp`: superseded code that duplicates the parsers modelled here.
- The PostgreSQL layer: SQL text around a library.
- Bech32's guarantee for up to four scattered errors: it rests on an exhaustive search over the code, not on a property of this implementation; the burst property is proved instead.
