# Verified models of eglibc 2.11.3: crypt, message catalogs and argp

This project models four parts of eglibc 2.11.3 in Dafny and proves what they promise.

- **DES and crypt(3)** (`Bits`, `Fips46`, `Des`, `Ufc*`, `CryptSpec`, `CryptData`). `Des` is plain DES of FIPS 46-3 over
  sequences of bits; `Fips46` holds the standard's tables. The `Ufc*` modules are the table-driven engine of `crypt_util.c`
  and `crypt.c`: halves kept E-expanded, S-box, P and E fused into the `sb` tables, salt applied by exchanging bits of those
  tables. `CryptData.Data` is the mutable `struct crypt_data`. Words are sets of bit positions. The engine is proved equal
  to plain DES, and every history of operations on one structure gives what fresh computations give.
- **Streaming hashes** (`ByteOrder`, `BlockHash`). The contexts of `md5.c`, `sha256.c` and `sha512.c` as one class over the
  block size, word size, byte order and an arbitrary compression function. Any split of the input, through either copy
  path, gives the one-shot digest with the padding of RFC 1321 and FIPS 180-2.
- **crypt result strings** (`CryptEncode`). How `md5-crypt.c`, `sha256-crypt.c` and `sha512-crypt.c` print into the caller's
  buffer, and how the digest is read back.
- **Message catalogs** (`Catalog*`). `gencat` reading message files, merging an old catalog, choosing the table size,
  placing the entries and writing both byte orders; `__open_catalog`; `catgets`. Looking a message up in the compiled file
  agrees with looking it up in a plain map, also after an update of an old catalog, and gives the text of the line that has the
  set and message number in the input.
- **argp** (`Argp*`). The help list and the getopt tables, two flattenings of one tree of option descriptions, agree on who
  owns an option and whether it takes an argument; the usage patterns are counted through once each; the calls to user parsers
  keep a grammar and deliver what getopt found.

Where the code and an obvious reading of it differ, the code is modelled and the difference is stated exactly:

- A DES salt of two NUL characters equals the cleared cache of a structure just initialised, so `_ufc_setup_salt_r` skips
  it: `CryptData.SaltHistoryIndependentIff` shows that every other salt, and only those, is independent of history.
- The 32-bit byte counters of MD5 and SHA-256 can lose a carry for one block call of 2^32 bytes or more
  (`BlockHash.AddLengthExact` and `BlockHash.Context.ProcessBytes` give the exact condition, `BlockHash.LostCarry` an input).
- `UINT_MAX` marks "no size found" in `write_out`, so a catalog whose optimal table size is `UINT_MAX` itself gets a table of
  one slot (`CatalogTable.FindSize`; `CatalogTable.SentinelIsOptimal` is such a catalog).
- `__open_catalog` measures table entries where it means bytes and scans for the end of the last string before it knows there
  is one. Without a message the first byte scanned lies behind the file, which is accepted exactly when a zero is met there
  (`CatalogLookup.AcceptedIff`, `CatalogLookup.EmptyCatalogReadsBehind`); a mapped file always is, since the rest of its last
  page is zero (`CatalogLookup.MappedIsAccepted`).
- The first named set of a message file gets number 1 and joins the default set; later ones are new (`CatalogInput.NamedSetIsNew`).
- A collision renumbers the symbolic message even when the line that caused it is then dropped for an invalid character.
- For `ARGP_KEY_ARGS` the comment in `parser_parse_arg` says that the next argument is moved only if the parser left it
  alone; the code always moves it to the end (`ArgpCallbacks.Parser.ParseArg`).
- The usage loop ends, with every combination printed once, just if no args_doc in the tree has more than 128 lines, as many as
  a signed level byte can count (`ArgpUsage.UsagePatterns`, `ArgpUsage.UsageNeverEnds`).
- Help shows a short alias of a documentation entry; the parser ignores it. `ArgpConvert.HelpAgreesWithParser` gives the exact
  condition on a key under which the two agree, `ArgpConvert.DocAliasUnknown` a tree in which they do not.
- An option whose key is a colon is taken by getopt for the argument mark of the option before it (`ArgpKinds.ArgumentsAsDescribed`
  gives the exact condition, `ArgpKinds.ColonMisread` a tree).
- Group number and key of a long option survive in its getopt value just for the first 127 groups and 24-bit keys
  (`ArgpConvert.EncodingFaithful`).

## Model

| member | source | states |
|---|---|---|
| `Fips46.StandardWellFormed` | eglibc-2.11.3/crypt/crypt_util.c:68-187 | the transcribed tables: FP and IP are inverse, E selects every bit, PC1 skips the parity bits, PC2 keeps the halves apart, S-box entries have four bits |
| `Fips46.SBoxesOnto` | eglibc-2.11.3/crypt/crypt_util.c:117-167 | every row of every S-box is a permutation of the sixteen outputs |
| `Des.SelectExample` | eglibc-2.11.3/crypt/crypt_util.c:337 | the example of FIPS 46-3: S1 gives 0101 for 011011 |
| `Des.HalvesComeRound` | eglibc-2.11.3/crypt/crypt_util.c:79-81 | after sixteen rotations the key halves are where they started |
| `Des.DecryptUndoesEncrypt` | eglibc-2.11.3/crypt/crypt_util.c:775-827 | for every well-formed set of tables, key and block, deciphering with the reversed schedule undoes enciphering |
| `Des.RoundsUndone` | eglibc-2.11.3/crypt/crypt.c:98-114 | any number of Feistel rounds is undone by the swapped rounds with the keys reversed |
| `UfcTables.Build` | eglibc-2.11.3/crypt/crypt_util.c:373-471 | the nested loops that fill a table give, at every index, the image of that index under the wiring |
| `UfcTables.OrOfBit` | eglibc-2.11.3/crypt/crypt_util.c:658-739 | OR-ing one table entry per chunk gives an output bit exactly when the chunk bit wired to it is set: lookups are the permutation of the whole word |
| `UfcKeys.Pc1Lookup` | eglibc-2.11.3/crypt/crypt_util.c:658-662 | eight OR-ed lookups in do_pc1 give the two halves of permuted choice 1 of the key |
| `UfcKeys.RotateHolds` | eglibc-2.11.3/crypt/crypt_util.c:664-693 | the unmasked rotation keeps the low 28 bits equal to the true rotation, since any overflow bit repeats a low one |
| `UfcKeys.Pc2Lookup` | eglibc-2.11.3/crypt/crypt_util.c:664-693 | four OR-ed lookups in do_pc2, taken from an unmasked half, give half of the round key of permuted choice 2 |
| `UfcPerms.ExpandLookup` | eglibc-2.11.3/crypt/crypt_util.c:405-426 | four lookups in eperm32tab give P followed by E of the 32 bits |
| `UfcPerms.InvertExpansion` | eglibc-2.11.3/crypt/crypt_util.c:428-435 | e_inverse names, for every bit of both halves, a place where E put it |
| `UfcPerms.FinalLookup` | eglibc-2.11.3/crypt/crypt_util.c:437-471 | sixteen lookups in efp undo E and apply the final permutation |
| `UfcRounds.ShuffleResalts` | eglibc-2.11.3/crypt/crypt_util.c:575-586 | exchanging the bits in which two salts differ turns a word expanded under one salt into the word expanded under the other |
| `UfcRounds.SaltedByEntries` | eglibc-2.11.3/crypt/crypt_util.c:608-620 | exchanging by positions of saltbits is exchanging entries k and k + 24 of the expansion table for every k of the salt |
| `UfcRounds.SaltOfBits` | eglibc-2.11.3/crypt/crypt_util.c:613-620 | the saltbits of two characters lay out exactly the twelve salt bits of those characters |
| `UfcRounds.SegmentOffset` | eglibc-2.11.3/crypt/crypt.c:83-111 | each 16-bit slice of keyed data is the byte offset of the entry of its own sb table |
| `UfcRounds.FourLookups` | eglibc-2.11.3/crypt/crypt.c:100-111 | XOR-ing the four entries adds the expanded output of the cipher function |
| `UfcRounds.RoundKeepsExpanded` | eglibc-2.11.3/crypt/crypt.c:95-117 | a round in expanded form is the expansion of a DES round, so both halves stay images of E |
| `UfcEngine.Sba` | eglibc-2.11.3/crypt/crypt.c:83 | an aligned offset reads the entry it names |
| `CryptSpec.BinAsciiRoundTrip` | eglibc-2.11.3/crypt/crypt_util.c:189-190 | the salt decoder undoes the printing alphabet |
| `CryptSpec.BinToAsciiIs` | eglibc-2.11.3/crypt/crypt_util.c:190 | the alphabet is dot, slash, digits, capitals and small letters |
| `CryptSpec.SaltNumber` | eglibc-2.11.3/crypt/crypt_util.c:613-620 | the salt is the twelve-bit number of its two characters, the first one low |
| `CryptSpec.KeyByteIs` | eglibc-2.11.3/crypt/crypt_util.c:658-662 | each byte of the key is twice the seven bits of a password character |
| `CryptSpec.KeyDetermines` | eglibc-2.11.3/crypt/crypt-entry.c:119-121 | two passwords make the same key if and only if their first eight characters are the same |
| `CryptSpec.CryptIs` | eglibc-2.11.3/crypt/crypt-entry.c:99-140 | the result: both salt characters, then DES with the salted expansion applied twenty-five times to the zero block |
| `CryptSpec.PrintedBit` | eglibc-2.11.3/crypt/crypt_util.c:746-772 | every character decodes to its six bits of the block, most significant first |
| `CryptSpec.ApplyTimesByCore` | eglibc-2.11.3/crypt/crypt-entry.c:123-132 | twenty-five full encryptions equal IP, that many cores and FP, since FP and IP between them cancel |
| `CryptSpec.PrintedInjective` | eglibc-2.11.3/crypt/crypt_util.c:746-772 | different blocks print as different strings |
| `UfcEngine.SmallTables.constructor` | eglibc-2.11.3/crypt/crypt_util.c:366-473 | the four small tables hold their wirings' images |
| `UfcEngine.FillSb` | eglibc-2.11.3/crypt/crypt_util.c:480-539 | every sb entry is S-box, P and E of its index, unsalted |
| `UfcEngine.ShuffleSb` | eglibc-2.11.3/crypt/crypt_util.c:575-586 | in place, every entry of one table has the given bits exchanged and no other entry changes |
| `UfcEngine.Resalt` | eglibc-2.11.3/crypt/crypt_util.c:634-637 | tables for one salt become the tables for another |
| `UfcEngine.ComputeSaltBits` | eglibc-2.11.3/crypt/crypt_util.c:613-620 | the loop collects exactly the bits of the two salt characters |
| `UfcEngine.MakeKeytab` | eglibc-2.11.3/crypt/crypt_util.c:642-696 | every key-table word is the FIPS 46-3 round key with the table flags |
| `UfcEngine.DoIt` | eglibc-2.11.3/crypt/crypt.c:85-118 | with a schedule in the key table, the result words are the expansion of the DES core applied itr times under the salted E |
| `UfcEngine.DoFinalPerm` | eglibc-2.11.3/crypt/crypt_util.c:702-739 | the two result words are the final permutation of the unexpanded, unsalted halves |
| `UfcEngine.OutputConversion` | eglibc-2.11.3/crypt/crypt_util.c:746-772 | the thirteen characters and terminator printed for a block and a salt |
| `UfcEngine.ParityIgnored` | eglibc-2.11.3/crypt/crypt_util.c:891-908 | keys that differ in parity bits alone have the same schedule |
| `UfcEngine.ReverseKeys` | eglibc-2.11.3/crypt/crypt_util.c:807-827 | the swaps in place reverse the key table |
| `UfcEngine.EncryptBlock` | eglibc-2.11.3/crypt/crypt_util.c:829-874 | with a schedule in the key table, the block array becomes DES of it under that schedule |
| `UfcEngine.CryptZero` | eglibc-2.11.3/crypt/crypt-entry.c:123-138 | the string printed for twenty-five salted encryptions of the zero block |
| `CryptData.SaltHistoryIndependentIff` | eglibc-2.11.3/crypt/crypt_util.c:594-640 | for every salt, the salt bits in force are the salt's own from every reachable cache state if and only if the salt is not two NULs |
| `CryptData.SaltInForce` | eglibc-2.11.3/crypt/crypt_util.c:594-640 | for such a salt, the bits in force after setup are its own, whatever was cached |
| `CryptData.Data.InitDes` | eglibc-2.11.3/crypt/crypt_util.c:344-544 | pristine tables and a cleared salt cache |
| `CryptData.Data.SetupSalt` | eglibc-2.11.3/crypt/crypt_util.c:594-640 | the tables are those of the new salt bits, or the cached ones |
| `CryptData.Data.SetKey` | eglibc-2.11.3/crypt/crypt_util.c:891-908 | the key table holds the forward schedule of the 64-bit key |
| `CryptData.Data.Turn` | eglibc-2.11.3/crypt/crypt_util.c:803-827 | the key table is the forward schedule or its reversal as direction says |
| `CryptData.Data.Encrypt` | eglibc-2.11.3/crypt/crypt_util.c:781-874 | from every valid structure: with the key loaded, the block becomes its DES encryption or decryption in place and the key stays loaded; without one the structure stays valid |
| `CryptData.ThereAndBack` | eglibc-2.11.3/crypt/crypt_util.c:781-874 | enciphering and deciphering a block in either order returns it |
| `CryptData.Data.Crypt` | eglibc-2.11.3/crypt/crypt-entry.c:111-138 | the result is crypt(3) of password and salt for every salt but two NULs, from every reachable state |
| `CryptData.Data.Overwrite` | eglibc-2.11.3/crypt/crypt-entry.c:94-109 | an MD5 or SHA call returns its string for any salt and rounds, and the fields read back from the bytes it wrote are those of a structure that is not initialised |
| `CryptData.Run` | eglibc-2.11.3/crypt/crypt-entry.c:84-139 | over every sequence of setkey, encrypt, crypt and MD5/SHA calls on one structure, each result is what the specification gives for that call and the last key set, at every position but an encrypt without a key and a crypt with a salt of two NULs |
| `CryptData.CryptFresh` | eglibc-2.11.3/crypt/crypt-entry.c:84-139 | a zeroed structure with the standard's tables computes crypt(3) |
| `BlockHash.FoldAppend` | eglibc-2.11.3/crypt/md5.c:302-322 | processing blocks in two calls is processing their concatenation in one |
| `BlockHash.FoldOne` | eglibc-2.11.3/crypt/md5.c:324-345 | one block is one compression of that block, so that with FoldAppend the fold is determined |
| `BlockHash.ZeroCountLeast` | eglibc-2.11.3/crypt/md5.c:122-123 | the specified padding fills whole blocks with the least number of zero bytes |
| `BlockHash.StandardPadding` | eglibc-2.11.3/crypt/sha512.c:230-253 | the padding in numbers: a one bit, zeroes and the bit length, in 64-byte blocks with eight little-endian length bytes for MD5 and eight big-endian for SHA-256, in 128-byte blocks with sixteen big-endian for SHA-512 |
| `BlockHash.AddLengthExact` | eglibc-2.11.3/crypt/md5.c:320-322 | the two-word increment counts right if and only if the length is below one word or carries exactly one |
| `BlockHash.LostCarry` | eglibc-2.11.3/crypt/sha256.c:93-95 | one block call of 2^33 bytes on 32-bit words loses a carry |
| `BlockHash.LengthField` | eglibc-2.11.3/crypt/md5.c:125-128 | the two words stored are the bit length modulo the field, in the hash's byte order |
| `BlockHash.Context.constructor` | eglibc-2.11.3/crypt/md5.c:72-86 | an empty message, nothing pending, both counters zero |
| `BlockHash.Context.ProcessBlock` | eglibc-2.11.3/crypt/sha512.c:108-126 | the chaining value is folded over the blocks and the counter incremented |
| `BlockHash.Context.TopUp` | eglibc-2.11.3/crypt/md5.c:221-243 | pending bytes are completed from the input, by as many as two blocks have room for, and whole blocks of them processed; what is left of the input follows |
| `BlockHash.Context.OneByOne` | eglibc-2.11.3/crypt/md5.c:256-262 | the unaligned path, which overwrites the buffer, runs only with nothing pending and loses no byte |
| `BlockHash.Context.AllAtOnce` | eglibc-2.11.3/crypt/md5.c:264-269 | the aligned path processes all whole blocks in one call, and the count stays right if and only if that call carries at most what one increment can |
| `BlockHash.Context.ProcessBytes` | eglibc-2.11.3/crypt/sha256.c:232-304 | for any input and alignment the message tracked grows by the input, and the bytes pending are known from the lengths; a right count stays right if and only if the data is unaligned or its one long block call fits a counter word or carries one |
| `BlockHash.Context.Finish` | eglibc-2.11.3/crypt/sha512.c:230-259 | the result is the specified digest of everything fed in, including with a full block pending |
| `BlockHash.PadLengthStandard` | eglibc-2.11.3/crypt/sha256.c:213-214 | the pad length computed from the pending bytes is that of the standard for the whole message |
| `BlockHash.PaddedBlocks` | eglibc-2.11.3/crypt/md5.c:113-131 | the last blocks are the pending bytes and the standard's padding |
| `BlockHash.HashesWellFormed` | eglibc-2.11.3/crypt/sha512.c:230-253 | MD5, SHA-256 and SHA-512 are instances, with counter words of 32, 32 and 64 bits |
| `BlockHash.ShortPiecesCountable` | eglibc-2.11.3/crypt/sha256.c:281-286 | aligned pieces shorter than a counter word are never miscounted |
| `BlockHash.HashPieces` | eglibc-2.11.3/crypt/md5.c:215-287 | for any list of pieces with any alignments the result is the digest of their concatenation, if no long block call is miscounted, which the lengths decide |
| `CryptEncode.EachBytePrinted` | eglibc-2.11.3/crypt/sha512-crypt.c:328-349 | every byte index occurs in some call of b64_from_24bit, at a known place |
| `CryptEncode.EachByteOnce` | eglibc-2.11.3/crypt/sha256-crypt.c:328-338 | no byte index occurs twice |
| `CryptEncode.LettersRoundTrip` | eglibc-2.11.3/crypt/md5-crypt.c:258-268 | the letters of a number decode to it |
| `CryptEncode.DigestRoundTrip` | eglibc-2.11.3/crypt/md5-crypt.c:270-275 | every byte of the digest is read back from the last 22, 43 or 86 characters |
| `CryptEncode.TextLengths` | eglibc-2.11.3/crypt/sha512-crypt.c:328-349 | 22, 43 and 86 characters |
| `CryptEncode.Writer.Format` | eglibc-2.11.3/crypt/sha256-crypt.c:299-305 | snprintf of the rounds, truncated when it does not fit |
| `CryptEncode.Writer.From24Bit` | eglibc-2.11.3/crypt/md5-crypt.c:258-268 | as many letters as fit follow what was printed |
| `CryptEncode.WriteResult` | eglibc-2.11.3/crypt/sha512-crypt.c:294-357 | success if and only if string and terminator fit; then the buffer holds the string and zeroes; nothing behind the given length changes |
| `CryptEncode.ResultShort` | eglibc-2.11.3/crypt/sha512-crypt.c:130-147 | for any salt and any rounds asked for, the clamped rounds and the cut salt make a C string shorter than the 128 bytes of keysched |
| `CryptEncode.ResultReads` | eglibc-2.11.3/crypt/sha512-crypt.c:294-349 | the result in characters: the prefix, the salt, a dollar sign and the digest; `rounds=`, the number and a dollar sign |
| `CryptEncode.DecimalSpells` | eglibc-2.11.3/crypt/sha256-crypt.c:299-305 | the digits spell the number of rounds without leading zeroes |
| `CryptEncode.SaltTextLongest` | eglibc-2.11.3/crypt/sha256-crypt.c:147 | the salt used is the longest prefix without a dollar sign of at most sixteen characters, eight for MD5 |
| `CryptEncode.SaltReadBack` | eglibc-2.11.3/crypt/md5-crypt.c:118 | a result given as a salt again has the same salt in it |
| `CryptEncode.RoundsNearest` | eglibc-2.11.3/crypt/sha256-crypt.c:142 | the rounds used are the allowed number nearest to those asked for |
| `CatalogTable.DepthIs` | eglibc-2.11.3/catgets/gencat.c:891-919 | the depth is the largest bucket load, and reached |
| `CatalogTable.MeasureSet` | eglibc-2.11.3/catgets/gencat.c:899-917 | the loop with its early exit either counts all messages or proves that the size cannot win |
| `CatalogTable.Measure` | eglibc-2.11.3/catgets/gencat.c:890-919 | the depth found is exact, or a bound above the best area that the true area exceeds as well |
| `CatalogTable.FindSize` | eglibc-2.11.3/catgets/gencat.c:872-935 | the search ends with a size of least area among all from 1 + total/5 up, the largest such; exactly when there is one below the sentinel |
| `CatalogTable.SentinelIsOptimal` | eglibc-2.11.3/catgets/gencat.c:930-935 | a catalog whose optimal size is UINT_MAX itself |
| `CatalogTable.PlaneInDepth` | eglibc-2.11.3/catgets/gencat.c:959-962 | no entry is placed in a plane beyond the depth |
| `CatalogTable.FreeSlot` | eglibc-2.11.3/catgets/gencat.c:957-962 | the probe ends inside the table, at the first free plane of the bucket |
| `CatalogTable.PlaceOne` | eglibc-2.11.3/catgets/gencat.c:957-973 | a placement keeps all earlier ones and all other free slots |
| `CatalogTable.PlaceAll` | eglibc-2.11.3/catgets/gencat.c:942-981 | every entry stands in its slot with its string's offset, every other slot is empty, and the pool is all strings |
| `CatalogTable.ProbeSlot` | eglibc-2.11.3/catgets/catgets.c:96-105 | a slot of the key's bucket matches the key if and only if an entry with that key was placed there |
| `CatalogTable.Probe` | eglibc-2.11.3/catgets/catgets.c:96-107 | the lookup finds the offset of the key's string if and only if the key is present |
| `CatalogFile.FetchStore` | eglibc-2.11.3/catgets/gencat.c:983-985 | a word read with the other byte order is the swapped word |
| `CatalogFile.SwapTwice` | eglibc-2.11.3/catgets/open_catalog.c:275-279 | swapping undoes itself |
| `CatalogFile.StoreAllSwapped` | eglibc-2.11.3/catgets/gencat.c:983-985 | the swapped array in memory is the array of a machine of the other order |
| `CatalogFile.WriteFile` | eglibc-2.11.3/catgets/gencat.c:983-1015 | on either machine the file is the header in its own order, the little-endian table, the big-endian table and the strings |
| `CatalogFile.LargestOffset` | eglibc-2.11.3/catgets/open_catalog.c:299-304 | the largest string offset in the table |
| `CatalogFile.ScanLast` | eglibc-2.11.3/catgets/open_catalog.c:313-324 | over the strings and whatever follows them in memory: ended by a zero within the budget, out of budget, or past what can be read, exactly |
| `CatalogFile.Dimensions` | eglibc-2.11.3/catgets/open_catalog.c:254-279 | for each pair of byte orders the magic number is recognised and the dimensions are the written ones |
| `CatalogFile.Open` | eglibc-2.11.3/catgets/open_catalog.c:254-324 | for each pair of byte orders, any table and strings in the layout of write_out and any bytes behind the file: refused, accepted with the same dimensions, table and strings, or faulting, exactly as the largest offset, the strings and the bytes behind say |
| `CatalogFormat.HeaderBytes` | eglibc-2.11.3/catgets/gencat.c:983-1015 | the first twelve bytes are 0x960408de, size and depth in the byte order of the writer, and the length of the file follows from them |
| `CatalogFormat.MessageBytes` | eglibc-2.11.3/catgets/gencat.c:942-1015 | where a message lies in the file, in bytes: at its product modulo the size in some plane of both indexes, with its numbers and the offset of its text and a NUL |
| `CatalogLookup.PoolString` | eglibc-2.11.3/catgets/gencat.c:964-973 | the C string at an entry's offset is its text |
| `CatalogLookup.AcceptedIff` | eglibc-2.11.3/catgets/open_catalog.c:299-324 | a file of write_out with a message is accepted whatever follows it; one without is accepted if and only if the scan meets a zero behind the file |
| `CatalogLookup.MappedIsAccepted` | eglibc-2.11.3/catgets/open_catalog.c:206-222 | such a file when mapped is always accepted: without strings it never fills its last page, whose rest is zero |
| `CatalogLookup.EmptyCatalogReadsBehind` | eglibc-2.11.3/catgets/open_catalog.c:299-324 | the catalog with no message, one slot and no string bytes faults with nothing behind it and is accepted with a zero behind it |
| `CatalogLookup.SearchableWhenSmall` | eglibc-2.11.3/catgets/gencat.c:875-929 | the search finds a table whenever the worst case of its first candidate stays below UINT_MAX slots |
| `CatalogLookup.WriteOut` | eglibc-2.11.3/catgets/gencat.c:854-1015 | with messages or without, the file is that of an optimal table with every message in place |
| `CatalogLookup.MeaningOf` | eglibc-2.11.3/catgets/gencat.c:942-981 | the plain map that stands for a catalog |
| `CatalogLookup.Catgets` | eglibc-2.11.3/catgets/catgets.c:84-111 | for all int arguments, the map's text or the caller's string |
| `CatalogLookup.CompileAndLookUp` | eglibc-2.11.3/catgets/catgets.c:84-111 | compiled on any machine, opened on any machine: any answer is the lookup in the plain map, and there is one if the catalog has a message or a zero follows its file |
| `CatalogInput.OrderedDetermined` | eglibc-2.11.3/catgets/gencat.c:795-814 | a sorted list is determined by its contents, so the contracts by contents are complete |
| `CatalogInput.Insert` | eglibc-2.11.3/catgets/gencat.c:795-814 | the list stays sorted, the new message is in it and no other changes |
| `CatalogInput.Renumber` | eglibc-2.11.3/catgets/gencat.c:629-652 | the symbolic message gets the next number, keeps text and symbol, moves to the end, and no other changes |
| `CatalogInput.AddNumbered` | eglibc-2.11.3/catgets/gencat.c:597-660 | the exact new set for a numbered line: refused, clashing or new, converted or not |
| `CatalogInput.AddSymbolic` | eglibc-2.11.3/catgets/gencat.c:661-686 | the exact new set for a symbolic line |
| `CatalogInput.NextValid` | eglibc-2.11.3/catgets/gencat.c:597-686 | every line keeps lists strictly increasing, last_message above all numbers, and symbols distinct |
| `CatalogInput.RunKeepsNumbered` | eglibc-2.11.3/catgets/gencat.c:597-686 | over every run a message numbered by the user keeps number and text |
| `CatalogInput.RunKeepsSymbolic` | eglibc-2.11.3/catgets/gencat.c:597-686 | over every run a symbolic message keeps symbol and text, and its number unless a line asked for that number |
| `CatalogInput.FindSet` | eglibc-2.11.3/catgets/gencat.c:1085-1107 | the set with the number plus one, made and put first if missing, with no message changed |
| `CatalogInput.Source.ReadMessage` | eglibc-2.11.3/catgets/gencat.c:583-816 | a line changes the current set alone, by the rules above, and the message count: `Read` of the states before and after |
| `CatalogInput.Source.BeginNumbered` | eglibc-2.11.3/catgets/gencat.c:398-408 | a numbered set directive enters that set; zero does nothing |
| `CatalogInput.Source.BeginNamed` | eglibc-2.11.3/catgets/gencat.c:409-470 | a new name enters the set behind the last set number; a name in use does nothing |
| `CatalogInput.NamedSetIsNew` | eglibc-2.11.3/catgets/gencat.c:409-470 | a new name enters a set not used before if and only if a set directive came first; otherwise it joins the default set |
| `CatalogInput.ReadOnce` | eglibc-2.11.3/catgets/gencat.c:268-851 | from a valid catalog a line leaves one state only |
| `CatalogInput.InputDetermines` | eglibc-2.11.3/catgets/gencat.c:268-851 | the input determines the state that reading it leaves |
| `CatalogInput.ReadKeeps` | eglibc-2.11.3/catgets/gencat.c:268-851 | every line keeps the catalog valid and the messages in it |
| `CatalogInput.Source.ReadAll` | eglibc-2.11.3/catgets/gencat.c:268-851 | over every input each line does what the rules for it say, from the state the lines before it left; the catalog stays valid, numbered messages stay, and symbolic ones keep their texts, and their numbers unless a line read into the same set asked for them |
| `CatalogMerge.MergeMessage` | eglibc-2.11.3/catgets/gencat.c:1268-1306 | an old message is inserted, ignored or deletes an empty new one; order is kept |
| `CatalogMerge.MergeSlots` | eglibc-2.11.3/catgets/gencat.c:1251-1307 | after all slots every key holds the merge of new and old, and the count has grown by the insertions |
| `CatalogMerge.EntriesMeaning` | eglibc-2.11.3/catgets/gencat.c:942-981 | what write_out compiles means what the sets hold |
| `CatalogMerge.ReadOld` | eglibc-2.11.3/catgets/gencat.c:1228-1308 | as plain maps: new entries win, old ones fill gaps, a new empty text deletes an old entry, nothing else changes; keys stay unique |
| `CatalogUpdate.MergedCount` | eglibc-2.11.3/catgets/gencat.c:1228-1308 | a merge has no more messages than the two catalogs |
| `CatalogUpdate.AddedBound` | eglibc-2.11.3/catgets/gencat.c:1228-1308 | reading an old catalog adds no more to the message count than the old catalog has messages |
| `CatalogUpdate.MergedFits` | eglibc-2.11.3/catgets/gencat.c:854-935 | the merge of two catalogs has no more messages and no more string bytes than both, so it can be compiled when there is room for the messages of both in a table and for their strings in an offset |
| `CatalogUpdate.Update` | eglibc-2.11.3/catgets/gencat.c:854-1015 | write_out over an old catalog file or without one: any answer is the lookup in the merge of the plain maps, and there is one if the messages of both are within the limits of the tables and each file has a message or is followed by a zero |
| `CatalogUpdate.Gencat` | eglibc-2.11.3/catgets/gencat.c:268-1015 | the input read line by line from the initial catalog, an old output file if there is one merged in, the result compiled on one machine and opened on another: any answer of catgets is the lookup in the merge of the plain maps of what was read and of the old file, and there is one under the conditions of `Update` |
| `CatalogRun.RefusedIff` | eglibc-2.11.3/catgets/gencat.c:597-686 | a message line is refused if and only if it is numbered zero or an earlier line of its set with a text has the same number or symbol |
| `CatalogRun.FoundHasLine` | eglibc-2.11.3/catgets/gencat.c:268-851 | over every input, every message has its text, and its number or symbol, from a line read into its set |
| `CatalogRun.SetInForce` | eglibc-2.11.3/catgets/gencat.c:398-408 | lines behind `$set n` belong to set n |
| `CatalogRun.DefaultSet` | eglibc-2.11.3/catgets/gencat.c:268-330 | lines before any directive belong to set 1 |
| `CatalogRun.NamedAbove` | eglibc-2.11.3/catgets/gencat.c:409-470 | a set given to a name has a number above all that directives before it asked for |
| `CatalogRun.NumberedAnswered` | eglibc-2.11.3/catgets/catgets.c:84-111 | the text of the first line with message number m read into set n is the lookup for n and m, whatever else the input has |
| `CatalogRun.SymbolicAnswered` | eglibc-2.11.3/catgets/catgets.c:84-111 | the text of the first line with a symbol is found under the number it was given, above all others in the set, unless a later line asked for that; then under another |
| `CatalogRun.AnswerHasLine` | eglibc-2.11.3/catgets/catgets.c:84-111 | any answer but the caller's own string is the text of a line read into that set |
| `CatalogRun.UpdateAnswers` | eglibc-2.11.3/catgets/gencat.c:1228-1308 | after an update: a new text, else an old one, else the caller's string, and a new empty text deletes an old one |
| `CatalogRun.LineAnswered` | eglibc-2.11.3/catgets/gencat.c:268-1015 | gencat and catgets together: within the limits, the answer for n and m is the text of the first line with number m in set n, also over an old catalog unless the text is empty |
| `CatalogRun.SymbolAnswered` | eglibc-2.11.3/catgets/gencat.c:268-1015 | the same for the first line with a symbol and the number its message has in the end |
| `CatalogRun.TwoLines` | eglibc-2.11.3/catgets/gencat.c:1085-1107 | `$set n` and one message m: the lookup for n and m is its text |
| `CatalogRun.Numbering` | eglibc-2.11.3/catgets/gencat.c:597-686 | four lines in which symbols get the numbers 1 and 6, and the first moves on to 7 when a line asks for 1 |
| `ArgpUsage.LinesCut` | eglibc-2.11.3/argp/argp-help.c:1408-1419 | the lines of an args_doc have no newline in them and give it when joined with newlines |
| `ArgpUsage.FindLine` | eglibc-2.11.3/argp/argp-help.c:1408-1419 | the line of the given number, and whether others follow |
| `ArgpUsage.ArgsLevels` | eglibc-2.11.3/argp/argp-help.c:1375-1389 | the number of argps with alternatives |
| `ArgpUsage.ValueInjective` | eglibc-2.11.3/argp/argp-help.c:1391-1395 | different level vectors are different mixed-radix numbers |
| `ArgpUsage.ArgsUsage` | eglibc-2.11.3/argp/argp-help.c:1396-1449 | prints the vector's pattern and steps the vector by one as a mixed-radix number; false exactly when it came round to zero |
| `ArgpUsage.PatternAt` | eglibc-2.11.3/argp/argp-help.c:1396-1449 | the pattern of a level vector is the one its value counts to in the list of all patterns, made without levels: each line of an argp before all patterns of its children, the first child changing fastest |
| `ArgpUsage.UsagePatterns` | eglibc-2.11.3/argp/argp-help.c:1588-1637 | for every tree the loop ends, has printed that list, with the pattern of every combination exactly once, and leaves the levels at zero |
| `ArgpUsage.UsageNeverEnds` | eglibc-2.11.3/argp/argp-help.c:1437-1444 | with an args_doc of more than 128 lines anywhere in the tree the level byte wraps and the loop asks for another pattern for ever |
| `ArgpHelp.MakeHol` | eglibc-2.11.3/argp/argp-help.c:428-497 | the entries are the options in order, each one option with its aliases; the string has each short key once, each entry points to its part, the owner of each key is this argp |
| `ArgpHelp.HolAppend` | eglibc-2.11.3/argp/argp-help.c:823-913 | appending keeps that form and the options of both lists in order, and the first list shadows the second |
| `ArgpHelp.ArgpHol` | eglibc-2.11.3/argp/argp-help.c:1352-1371 | for every tree the entries are its options in preorder, and the owner of a short key is the first argp in preorder that has it |
| `ArgpHelp.ShortIterate` | eglibc-2.11.3/argp/argp-help.c:545-568 | an entry goes over exactly its keys that no earlier entry has, each once, and shows those whose first option is not hidden |
| `ArgpHelp.ShownByOwner` | eglibc-2.11.3/argp/argp-help.c:545-568 | the entry that shows a key belongs to the key's owner |
| `ArgpHelp.OwnedIsShown` | eglibc-2.11.3/argp/argp-help.c:545-568 | a key with an owner is shown by exactly one entry |
| `ArgpConvert.Converter.AddOption` | eglibc-2.11.3/argp/argp-parse.c:324-366 | what one option adds to both tables |
| `ArgpConvert.Converter.ConvertOptions` | eglibc-2.11.3/argp/argp-parse.c:312-411 | the tables are those of the flattening in preorder |
| `ArgpConvert.DispatchToRealOwner` | eglibc-2.11.3/argp/argp-parse.c:735-751 | in every tree, strchr and short_end lead to the first argp in preorder that has the key under an option that is not documentation |
| `ArgpConvert.OwnersAgreeIff` | eglibc-2.11.3/argp/argp-parse.c:326-346 | the parser's owner of a key is the first argp that has it if and only if that one has it under an option that is not documentation |
| `ArgpConvert.HelpAgreesWithParser` | eglibc-2.11.3/argp/argp-parse.c:735-751 | for every tree and key: the entry that shows the key and the parser's dispatch agree if and only if no argp has the key or the first in preorder that has it has it under an option that is not documentation |
| `ArgpConvert.DocAliasUnknown` | eglibc-2.11.3/argp/argp-parse.c:326-346 | a tree in which they do not agree |
| `ArgpConvert.FindGroup` | eglibc-2.11.3/argp/argp-parse.c:727-758 | the search gives the group and key of the dispatch |
| `ArgpConvert.EncodingFaithful` | eglibc-2.11.3/argp/argp-parse.c:360-370 | group and key survive the encoding if and only if the group is among the first 127 and the key has 24 bits |
| `ArgpConvert.RealIs` | eglibc-2.11.3/argp/argp-parse.c:326-332 | the option an alias stands for: only aliases lie between them |
| `ArgpConvert.LongOptionFound` | eglibc-2.11.3/argp/argp-parse.c:344-366 | a long option's value leads to the group of its first definition in preorder, and to its key, or its real option's if it has none, just if that has 24 bits; it takes no, an optional or a required argument as its real option says |
| `ArgpConvert.LongOptionKept` | eglibc-2.11.3/argp/argp-parse.c:344-366 | a name is in the table if and only if some argp defines it |
| `ArgpKinds.ArgumentsAsDescribed` | eglibc-2.11.3/argp/argp-parse.c:333-346 | for every tree and key: the colons behind the key say no, one or an optional argument as the option that owns it does, if and only if no option with the key of a colon follows where it would be taken for a mark |
| `ArgpKinds.ColonMisread` | eglibc-2.11.3/argp/argp-parse.c:333-346 | a tree in which one does |
| `ArgpConvert.CalcSizes` | eglibc-2.11.3/argp/argp-parse.c:453-478 | the counts of groups, options and child inputs of the tree |
| `ArgpConvert.TablesFit` | eglibc-2.11.3/argp/argp-parse.c:490-517 | conversion uses every group counted and stays within the short, long and child-input space |
| `ArgpCallbacks.Parser.GroupParse` | eglibc-2.11.3/argp/argp-parse.c:244-263 | one call to the group's parser, or EBADKEY without one |
| `ArgpCallbacks.Parser.ParserInit` | eglibc-2.11.3/argp/argp-parse.c:529-554 | calls with INIT alone, from the first group on, and on success to every parser once |
| `ArgpCallbacks.Parser.ParseArg` | eglibc-2.11.3/argp/argp-parse.c:676-723 | the calls made are exactly ARG, then ARGS, to each group in turn until one does not refuse, whose answer is returned; on success that call is credited with what it took |
| `ArgpCallbacks.Parser.ParseNext` | eglibc-2.11.3/argp/argp-parse.c:788-873 | what one step does with each getopt result: an option goes to the parser of its group, whose reply is returned; a bad one makes no call; an argument, or the next one when there are no more options, is offered as ParseArg does; `--` is respected |
| `ArgpCallbacks.StepStaged` | eglibc-2.11.3/argp/argp-parse.c:788-873 | every step keeps the grammar |
| `ArgpCallbacks.StepDelivers` | eglibc-2.11.3/argp/argp-parse.c:788-873 | every step delivers the option that getopt found, and no other |
| `ArgpCallbacks.Parser.Finalize` | eglibc-2.11.3/argp/argp-parse.c:580-669 | which of NO_ARGS, END, SUCCESS, ERROR and FINI are delivered, and to whom |
| `ArgpCallbacks.Parser.Parse` | eglibc-2.11.3/argp/argp-parse.c:880-926 | every run is a sequence of such steps; the options delivered are, in order, those getopt found; a run that parser_init lets start keeps the order of calls, however long it lasts, INIT, NO_ARGS and ERROR from the first group on, END, SUCCESS and FINI from the last |
| `ArgpCallbacks.GrammarKept` | eglibc-2.11.3/argp/argp-parse.c:580-669 | in every complete run the calls to each parser are a word of the grammar INIT (option, ARG, ARGS)* NO_ARGS? END? (SUCCESS or ERROR)? FINI |
| `ArgpCallbacks.OneOutcome` | eglibc-2.11.3/argp/argp-parse.c:629-659 | no run delivers both SUCCESS and ERROR |
| `ArgpCallbacks.NoArgsOnlyWhenIdle` | eglibc-2.11.3/argp/argp-parse.c:593-600 | NO_ARGS goes only to parsers that took no argument in the whole run |

## Left out

- The 32-bit form of the DES engine: the 64-bit form is modelled.
- The lock around the small DES tables, and `small_tables_initialized`: the tables are built before the structure is used.
- `char` is signed with eight bits, `int` has 32 and `size_t` 64 bits; other widths are not modelled. DES salts are two readable characters.
- The compression functions and round constants of MD5 and SHA, `md5_stream`, the key stretching loops of the crypt variants, and the NSS variants.
- Recognising the prefix and the `rounds=` number of a SHA salt: the number asked for and the salt behind it are given; clamping and cutting them are modelled.
- CryptData.Data.Encrypt: what a call computes from a key table that holds no schedule is not specified; its lookups may straddle two table entries, whose bytes are not modelled.
- CryptData.Data.Overwrite: the structure has the layout of a little-endian machine with 64-bit long.
- CatalogTable.FindSize: sizes whose product with the depth overflows 64 bits do not occur, since no candidate exceeds UINT_MAX.
- CatalogFile.Open: files that are not laid out as `write_out` does it, and the path search and reading of files, are not modelled; what follows the file in memory is a parameter.
- CatalogUpdate.Gencat: the program does not check its limits: 31-bit numbers, texts without NUL, string offsets of 32 bits, and a table below UINT_MAX slots were all messages in one bucket. No result stands for leaving them.
- CatalogLookup.CompileAndLookUp: products of set and message numbers beyond int are taken to wrap, as both programs would compute them alike.
- CatalogInput.AddNumbered: message and set numbers are unbounded integers; overflow of `last_message` is not modelled.
- `$delset` and `$quote` lines, character conversion and escape sequences, the header file: the converted text, or its failure, is part of a line.
- CatalogInput.Insert: the linked lists are sequences; sharing of list nodes is not modelled.
- ArgpUsage.UsagePatterns: help filters and translation are left out.
- ArgpHelp.ShortIterate: clusters, groups and the sorting of entries are left out, since sorting does not change shadowing.
- ArgpConvert.HelpAgreesWithParser: leaves out the key `:` and a key equal to the leading `-` or `+` of the string; argps at one address have one vector of options; printing characters are those of the C locale.
- ArgpConvert.TablesFit: `ARGP_NO_ARGS` reserves no byte for the leading character and is left out.
- ArgpCallbacks.Parser.Parse: getopt and the user's parsers are arbitrary functions of the number of calls; a parser that exits the program ends the run before its last calls; the counter of arguments taken is unbounded.
- `argp-fmtstream.c`, the layout of help texts, `getopt`, `iconv`, `qsort` and gettext.
