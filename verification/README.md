# Verified model of the KWallet runtime

This project models the storage back end of KWallet (`src/runtime/kwalletbackend`) and the state of
the secret-service daemon (`src/runtime/ksecretd`) in Dafny, and proves what they promise. Check it with
`dafny verify dfyconfig.toml`.

## The wallet file stack

- `options`, `choice`: a missing value, picking from sets and maps.
- `bytes`, `remainders`, `text`, `stream`, `md5_digest`: bytes, words in either byte order, division with a
  variable divisor, strings in Qt's order, the fields of a `QDataStream`, the order of the index keys.
- `sha1_standard` is SHA-1 as FIPS 180-4 states it; `sha1` is the class with its circular schedule, permuted
  registers, 64-bit accumulators and chunked input, proved to compute it; `sha1_padding` says for which
  lengths the padding is the standard's.
- `blowfish_rounds`, `blowfish`: the cipher on words, the key schedule and the in-place work on buffers, for all
  tables. `blowfish_standard` states Blowfish once more on its own, and that it is the same. `chaining` is CBC over any permutation of blocks; `cbc` is the current class, its reader for old
  wallets, and the former writer those wallets come from.
- `legacy_buffers`: what the former writer returned, call by call, comes back buffer by buffer.
- `wallet_format`, `wallet_file`, `persist_handler`: contents and index as bytes, the file around them, and the
  handler whose loops write and read it.
- `password_hash`, `backend_state`, `backend`: keys, the effect of every operation, and the class that performs
  it. `backend_runs` proves that over every run of operations an open wallet is a plain map from folder to key to
  (type, value), whatever is saved, reopened, renamed or given another password in between; `backend_codes`
  says exactly when opening, loading and saving return which code and what a failure leaves, `backend_index`
  exactly when the digest index tells the truth.

The layers compose: `BackendRuns.RunRefines` rests on `WalletFile.RoundTrip`, which rests on the CBC and Blowfish
inverses and on the format's round trip, all about the same functions that the imperative classes are proved to
compute.

## The daemon

- `decimal`, `labels`, `fresh_names`: names with copy numbers, labels, locations and object paths; exact domains
  of the conversions, and termination of the three loops that look for a free name.
- `attributes`, `items`, `collection`: the three stores of a collection (items, attributes, wallet entries), the
  operations of clients, and the signals the wallet sends back in the middle of them. `wallet_view` ties the
  wallet of these modules to the Backend of the others: over every run of calls they hold the same entries.
- `timers`, `daemon`: the table of open wallets, its close and sync timers, and the collections that mirror the
  handles. `transactions`: the queue of requests, with requests and nested processing during a dialog.

## What the proofs show about the code

- `SHA1::hash` tests the count after appending 0x80, so a length of 55 modulo 64 gets a zero block more than
  FIPS 180-4 asks for (`Sha1Padding.PaddedIsPad`), and its carry test first goes wrong at 2^29
  bytes (`Sha1Padding.LengthFieldBound`), in general exactly where `Sha1Padding.LengthFieldExact` says.
- `Backend::renameWallet` leaves a salt file alone that already lies under the new name. The wallet goes on opening
  with its password exactly when there was none, or one that happens to give the same key
  (`BackendRuns.RenameLosesSalt`).
- A folder that comes to exist by a write or a rename in it, without `createFolder`, is denied by the index with
  all its entries until the wallet is reloaded or the folder removed (`BackendIndex.DeniedUntil`); among names that
  do not collide the index's answers are right exactly when no such folder is left (`BackendIndex.RunExact`). A
  name that does collide with a folder is reported as being there (`BackendIndex.CollisionReported`).
- `Backend::openInternal` sets the open flag before it saves a new file. When that save fails it returns -2 and the
  wallet stays open, so that opening it again answers -255 (`BackendCodes.OpenInternalCodes`,
  `BackendCodes.OpenTwice`).
- `Backend::openPreHashed` opens a wallet of version 0 with its old hash, but the next save takes that hash for the
  new one: from then on the wallet belongs to its password exactly when the two hashes are the same
  (`BackendCodes.PreHashedStored`).
- `BlowFish::setKey` with a weak key returns false but keeps the weak schedule and the initialized flag of an
  earlier key (`Blowfish.BlowFish.SetKey`).
- A label whose copy number has a leading zero is called free and yet names another location; relabelling an item
  to it across folders overwrites the other item's secret (`SecretCollection.LeadingZeroTaken`,
  `Items.RelabelOverwrites`).
- `CreateItem` with a rejected secret leaves an item without an entry behind (`Items.HalfCreatedDisagrees`).
- `KSecretD::renameEntry` announces a rename that failed, and the collection follows it
  (`Items.FollowedRenameAgrees`).
- `KSecretD::removeEntry` announces the removal of an entry that was not there: removing `a__007_` takes away the
  item of `a__7_` (`SecretCollection.Collection.RemoveEntry`).
- `KSecretD::deleteWallet` of a wallet that has a file but is not open, `renameWallet` of one that is not open and
  `pamOpen` of one without a collection go through a null pointer (`Daemon.KSecretD.DeleteWallet`,
  `Daemon.KSecretD.SetLabel`, `Daemon.KSecretD.PamOpen`).
- A collection that is created with a handle starts without items, although a comment in
  `onWalletChangeState` says that the items are added at construction time
  (`SecretCollection.Collection.constructor`).
- An open queued behind a failed open of the same wallet and window is told -1 at once, but it stays queued and
  is processed later, with a dialog whose result nobody sees (`Transactions.FinishedForGood`).

## Model

| member | source | states |
|---|---|---|
| `Sha1.F1IsCh` | src/runtime/kwalletbackend/sha1.cc:40-40 | the optimised F1 is the function Ch of FIPS 180-4 section 4.1.1, for all words |
| `Sha1.F3IsMaj` | src/runtime/kwalletbackend/sha1.cc:42-42 | the optimised F3 is Maj of section 4.1.1 |
| `Sha1.RolIsRotl` | src/runtime/kwalletbackend/sha1.cc:34-34 | the three uses of the macro rol are the circular left shifts of section 3.2 by 1, 5 and 30 |
| `Sha1.R` | src/runtime/kwalletbackend/sha1.cc:49-54 | one macro call, with two registers changed in place, is one iteration of step 3 of section 6.1.2 with permuted register roles |
| `Sha1.ScheduleWord` | src/runtime/kwalletbackend/sha1.cc:45-47 | the 16-word circular buffer yields word t of the standard's message schedule and goes on holding the last sixteen of them |
| `Sha1.SHA1.EightyRounds` | src/runtime/kwalletbackend/sha1.cc:89-199 | eighty macro calls on the loaded block compute all eighty iterations of the standard |
| `Sha1.SHA1.Transform` | src/runtime/kwalletbackend/sha1.cc:89-207 | the new chaining value is the standard's compression of the old one with the loaded block; each long accumulator agrees with it modulo 2^32, and its part above 2^32 never exceeds the number of blocks, so below 2^31 blocks 64 bits do not overflow |
| `Sha1.SHA1.Reset` | src/runtime/kwalletbackend/sha1.cc:64-77 | a reset object has absorbed the empty message |
| `Sha1.SHA1.Process` | src/runtime/kwalletbackend/sha1.cc:214-258 | whatever the chunking, the message absorbed grows by exactly the bytes given, the chain value stays the fold of the compression over all whole blocks, and the length is returned; before a reset -1 and no change |
| `Sha1.SHA1.Hash` | src/runtime/kwalletbackend/sha1.cc:260-341 | the digest depends only on the whole message absorbed; a second call returns the same bytes |
| `Sha1Padding.LengthFieldExact` | src/runtime/kwalletbackend/sha1.cc:273-316 | for every message shorter than 2^61 bytes the length field is the 64-bit big-endian bit length if and only if the last carry test sees no false carry |
| `Sha1Padding.LengthFieldBound` | src/runtime/kwalletbackend/sha1.cc:273-293 | the length field is right for every length below 2^29 and wrong at 2^29, so the bound is tight |
| `Sha1Padding.PaddedIsPad` | src/runtime/kwalletbackend/sha1.cc:295-316 | the padded message equals the one of section 5.1.1 of FIPS 180-4 if and only if the length field is right and the length is not 55 modulo 64 |
| `Sha1Padding.DigestIsStandard` | src/runtime/kwalletbackend/sha1.cc:260-341 | on a big-endian host such messages get exactly the digest of the standard |
| `Sha1Padding.PaddedInjective` | src/runtime/kwalletbackend/sha1.cc:295-316 | below 2^29 bytes different messages have different padded forms |
| `Bytes.LoadOfStore` | src/runtime/kwalletbackend/sha1.cc:322-334 | in either byte order a word stored and loaded is the same word |
| `Bytes.StoreOfLoad` | src/runtime/kwalletbackend/sha1.cc:106-118 | in either byte order four bytes loaded and stored are the same bytes |
| `Bytes.U32Order` | src/runtime/kwalletbackend/backendpersisthandler.cpp:168-170 | a number in four bytes, the first the uppermost |
| `Bytes.JoinOrder` | src/runtime/kwalletbackend/blowfish.cc:129-137 | the bytes 1, 2, 3, 4 in memory are the word 0x01020304 on a big-endian and 0x04030201 on a little-endian host |
| `BlowfishRounds.DecipherEncipher` | src/runtime/kwalletbackend/blowfish.cc:211-255 | for all tables decipher undoes encipher |
| `BlowfishRounds.EncipherDecipher` | src/runtime/kwalletbackend/blowfish.cc:211-255 | for all tables encipher undoes decipher |
| `BlowfishRounds.DecipherReversed` | src/runtime/kwalletbackend/blowfish.cc:234-255 | decipher is encipher with the sixteen-round subkeys in reverse order |
| `BlowfishStandard.FOfWord` | src/runtime/kwalletbackend/blowfish.cc:188-209 | the round function on a half is ((S0[a] + S1[b]) ^ S2[c]) + S3[d] for its four bytes, the uppermost first, modulo 2^32 |
| `BlowfishStandard.EncipherIsStandard` | src/runtime/kwalletbackend/blowfish.cc:211-232 | enciphering is Blowfish stated on its own: sixteen rounds, each xoring a subkey into one half and its round function into the other, the halves swapped, the last swap undone, and two subkeys at the end |
| `BlowfishStandard.DecipherIsStandard` | src/runtime/kwalletbackend/blowfish.cc:234-255 | deciphering is the same with the eighteen subkeys in reverse order |
| `BlowfishStandard.KeyedIsStandard` | src/runtime/kwalletbackend/blowfish.cc:44-60 | each subkey is xored with four key bytes, uppermost first, the key going round |
| `BlowfishStandard.ExpandIsStandard` | src/runtime/kwalletbackend/blowfish.cc:63-75 | the expansion is that of one row of 1042 words, subkeys and then the four S-boxes, replaced two by two by enciphering the pair before, from zero |
| `BlowfishStandard.ScheduleIsStandard` | src/runtime/kwalletbackend/blowfish.cc:36-77 | the whole key schedule is that of the reference, for all tables and keys |
| `BlowfishStandard.WeakMeans` | src/runtime/kwalletbackend/blowfish.cc:79-86 | a schedule is weak if and only if two different places of one of the four S-boxes hold the same word |
| `BlowfishStandard.BlockIsStandard` | src/runtime/kwalletbackend/blowfish.cc:140-186 | on a little-endian host a buffer block is enciphered as its two halves read with the uppermost byte first |
| `BlowfishStandard.BlockOnBigEndian` | src/runtime/kwalletbackend/blowfish.cc:129-186 | on a big-endian host every four bytes of the block are taken and put back in reverse |
| `Blowfish.BlockInverse` | src/runtime/kwalletbackend/blowfish.cc:140-186 | on eight bytes the two directions, with the shuffle in and out, undo each other |
| `Blowfish.BufferInverse` | src/runtime/kwalletbackend/blowfish.cc:140-186 | on every buffer of a multiple of eight bytes encrypt and decrypt undo each other, both ways |
| `Blowfish.BlowFish.Encipher` | src/runtime/kwalletbackend/blowfish.cc:211-232 | the loop with swapped halves computes the sixteen rounds and the final whitening |
| `Blowfish.BlowFish.Decipher` | src/runtime/kwalletbackend/blowfish.cc:234-255 | the loop run backwards computes the inverse rounds |
| `Blowfish.BlowFish.ExpandAll` | src/runtime/kwalletbackend/blowfish.cc:63-75 | the two loops replace the subkeys and then the S-boxes, 521 pairs in all, in order |
| `Blowfish.BlowFish.Strong` | src/runtime/kwalletbackend/blowfish.cc:79-86 | the check for repeated S-box words finds one exactly when some S-box has two equal words |
| `Blowfish.BlowFish.Init` | src/runtime/kwalletbackend/blowfish.cc:36-91 | the schedule is a function of the initial tables and the key alone; success exactly when no S-box repeats a word |
| `Blowfish.BlowFish.SetKey` | src/runtime/kwalletbackend/blowfish.cc:114-127 | after true the schedule depends only on this key; on an accepted length false exactly when the schedule is weak, which leaves its schedule behind and the initialized flag of an earlier key set; a rejected length changes nothing |
| `Blowfish.BlowFish.Crypt` | src/runtime/kwalletbackend/blowfish.cc:140-186 | encrypt or decrypt in place changes exactly the given stretch into its image under the buffer transformation; -1 and no change without a key or for a length that is no multiple of eight |
| `Chaining.EncryptBlocks` | src/runtime/kwalletbackend/cbc.cc:89-103 | the transformation used as specification satisfies the block equations of section 6.2 of NIST SP 800-38A for every block |
| `Chaining.DecryptEncrypt` | src/runtime/kwalletbackend/cbc.cc:74-199 | over any permutation of blocks with an inverse, decrypting takes back encrypting |
| `Chaining.EncryptDecrypt` | src/runtime/kwalletbackend/cbc.cc:74-199 | and encrypting takes back decrypting |
| `Chaining.ChainOneMore` | src/runtime/kwalletbackend/cbc.cc:89-103 | one more block extends the result by its encipherment xored with the register |
| `Cbc.CipherInverse` | src/runtime/kwalletbackend/blowfish.cc:140-186 | the Blowfish buffer transformation is a length-keeping permutation with the other direction as inverse |
| `Cbc.CipherBlockChain.Encrypt` | src/runtime/kwalletbackend/cbc.cc:74-108 | the whole array becomes its CBC encryption with a zero vector, through the in-place xor and the register; the value returned is the last block's count, eight; an instance that has decrypted returns -1 and changes nothing, and one that encrypts becomes a writer |
| `Cbc.CipherBlockChain.Decrypt` | src/runtime/kwalletbackend/cbc.cc:151-199 | the whole array becomes its CBC decryption with a zero vector, through the swap of register and next; an instance that has encrypted returns -1 and changes nothing, and one that decrypts becomes a reader |
| `Cbc.CipherBlockChain.DecryptECB` | src/runtime/kwalletbackend/cbc.cc:112-149 | call after call the buffer returned is the last block of the whole-buffer chain over everything received, whose register it keeps; buffers longer than the first are refused |
| `Cbc.LegacyCipherBlockChain.Encrypt` | src/runtime/kwalletbackend/cbc.master.cc:62-92 | call after call the buffer returned is the last block of the whole-buffer chain over everything sent, and the register equals it |
| `Cbc.FirstLegacyCall` | src/runtime/kwalletbackend/cbc.master.cc:62-92 | the first call is plain block-by-block encryption |
| `LegacyBuffers.LegacyStep` | src/runtime/kwalletbackend/cbc.master.cc:62-92 | what one more call of the legacy class returns continues what was returned before to the chain over everything sent, and decrypting the chain so far ends in the buffer of that call |
| `LegacyBuffers.ReturnedJoin` | src/runtime/kwalletbackend/cbc.master.cc:62-92 | the buffers returned by any number of calls join to the chain over everything sent |
| `LegacyBuffers.LegacyRecovered` | src/runtime/kwalletbackend/cbc.cc:112-149 | any number of equal-sized buffers sent one by one through a legacy instance and the returned ones through decryptECB of a fresh current instance come back as they were, buffer by buffer |
| `Cbc.CurrentRoundTrip` | src/runtime/kwalletbackend/cbc.cc:74-199 | current encryption and decryption are mutual inverses under every key schedule |
| `Stream.TakePutU32` | src/runtime/kwalletbackend/backendpersisthandler.cpp:103-116 | a 32-bit number written to the stream is read back, whatever follows |
| `Stream.TakePutString` | src/runtime/kwalletbackend/backendpersisthandler.cpp:114-124 | a string written to the stream is read back, whatever follows |
| `Stream.TakePutBytes` | src/runtime/kwalletbackend/backendpersisthandler.cpp:126-126 | a byte array written to the stream is read back, whatever follows |
| `Stream.StringBytes` | src/runtime/kwalletbackend/backendpersisthandler.cpp:114-124 | a string is its size in bytes and then its code units, each with the upper byte first |
| `Stream.PastTheEnd` | src/runtime/kwalletbackend/backendpersisthandler.cpp:325-353 | what is read past the end, for the length of a null string or array, for an odd length and for one that is too large |
| `Text.BeforeMeans` | src/runtime/kwalletbackend/kwalletbackend.h:193-193 | strings are ordered by the first code unit in which they differ, a proper prefix first |
| `Text.Sorted` | src/runtime/kwalletbackend/backendpersisthandler.cpp:114-132 | the iteration visits each key once, in ascending order |
| `WalletFormat.TakePutEntries` | src/runtime/kwalletbackend/backendpersisthandler.cpp:333-358 | the entries of a folder are read back one after the other, with their keys as map keys |
| `WalletFormat.TakePutEntry` | src/runtime/kwalletbackend/backendpersisthandler.cpp:333-358 | an entry with the code 1, 2 or 3 is read back whole; with any other one key and type are consumed and the value is left to be taken for what follows |
| `WalletFormat.OneEntryLayout` | src/runtime/kwalletbackend/backendpersisthandler.cpp:113-126 | the contents of a wallet with one entry in full: folder name, number of entries, key, type, length and value |
| `WalletFormat.OneDigestLayout` | src/runtime/kwalletbackend/backendpersisthandler.cpp:102-131 | its index in full: number of folders, digest of the folder, number of entries, digest of the key |
| `WalletFormat.PutFoldersJoin` | src/runtime/kwalletbackend/backendpersisthandler.cpp:113-132 | folders are written one behind the other in the order in which they are visited |
| `WalletFormat.PutEntriesJoin` | src/runtime/kwalletbackend/backendpersisthandler.cpp:123-131 | so are the entries of a folder |
| `WalletFormat.PayloadRoundTrip` | src/runtime/kwalletbackend/backendpersisthandler.cpp:113-132 | the contents come back from the stream, up to the key stored inside an entry, if and only if every entry has the type 1, 2 or 3 (Password, Stream, Map) |
| `WalletFormat.FoldersKnown` | src/runtime/kwalletbackend/backendpersisthandler.cpp:323-359 | whatever bytes are read, only entries of a known type get into the contents |
| `WalletFormat.IndexRoundTrip` | src/runtime/kwalletbackend/backendpersisthandler.cpp:222-247 | the digests come back exactly when there are at most 0xffff folders, otherwise the reader gives up |
| `WalletFormat.IndexBreaksOff` | src/runtime/kwalletbackend/backendpersisthandler.cpp:229-237 | an index that announces more folders than there are before the data end is refused |
| `WalletFile.HandlerOfVersion` | src/runtime/kwalletbackend/backendpersisthandler.cpp:60-76 | the header that is written selects the handler that reads it |
| `WalletFile.Delta` | src/runtime/kwalletbackend/backendpersisthandler.cpp:148-155 | one to eight filler bytes make the body a multiple of the block size |
| `WalletFile.CheckedPlain` | src/runtime/kwalletbackend/backendpersisthandler.cpp:275-311 | the size field and the digest of a written block pass the reader's checks and delimit exactly the payload |
| `WalletFile.PlainLayout` | src/runtime/kwalletbackend/backendpersisthandler.cpp:146-180 | where the random block, the size, the contents, the filler and the digest are in the block that is encrypted |
| `WalletFile.CheckedExact` | src/runtime/kwalletbackend/backendpersisthandler.cpp:275-311 | a decrypted block passes if and only if its size field fits and the bytes it delimits have the digest at the end; -9 if and only if the size does not fit, -8 if and only if the digest is another |
| `WalletFile.DecryptedExact` | src/runtime/kwalletbackend/backendpersisthandler.cpp:260-273 | deciphering inverts enciphering under an accepted key; with another one it fails when a wallet of former releases is read and leaves the data as they are otherwise |
| `WalletFile.ReadExact` | src/runtime/kwalletbackend/backendpersisthandler.cpp:217-364 | each return code of the reader if and only if its condition holds, the contents on success, and unchanged entries on failure |
| `WalletFile.DecryptedEncrypted` | src/runtime/kwalletbackend/backendpersisthandler.cpp:185-197 | under an accepted key the decrypted body is the assembled one |
| `WalletFile.RoundTrip` | src/runtime/kwalletbackend/backendpersisthandler.cpp:78-364 | for every filler and accepted key, reading what was written returns 0, the same contents and exactly their digests, if and only if there are at most 0xffff folders and all types are 1, 2 or 3 |
| `WalletFile.LegacyRoundTrip` | src/runtime/kwalletbackend/backendpersisthandler.cpp:217-364 | a file written by the legacy class in one call is read back through decryptECB |
| `WalletFile.FileSize` | src/runtime/kwalletbackend/kwalletbackend.cc:273-280 | a complete file has at least 60 bytes, and exactly 60 when there are no folders, so opening never takes a saved wallet for junk |
| `PersistHandler.BlowfishPersistHandler.Serialise` | src/runtime/kwalletbackend/backendpersisthandler.cpp:99-132 | the loops write the index and the payload of all folders |
| `PersistHandler.BlowfishPersistHandler.Assemble` | src/runtime/kwalletbackend/backendpersisthandler.cpp:146-180 | random block, size, payload, random filler and digest tile the buffer without gap or overlap |
| `PersistHandler.BlowfishPersistHandler.Write` | src/runtime/kwalletbackend/backendpersisthandler.cpp:78-215 | -4 when the device does not take the header, then -2 exactly when the key is not accepted, then -4 when it does not take the rest; otherwise 0, and the output is header, index and the encrypted block |
| `PersistHandler.BlowfishPersistHandler.ReadIndex` | src/runtime/kwalletbackend/backendpersisthandler.cpp:222-247 | the loops over the stream rebuild the index, or refuse it |
| `PersistHandler.BlowfishPersistHandler.Check` | src/runtime/kwalletbackend/backendpersisthandler.cpp:275-311 | the byte-by-byte checks return -9 if and only if the size in bytes 8 to 11 does not fit, -8 if and only if it does and the digest of what it delimits is not in the last twenty bytes, and otherwise 0 with the payload |
| `PersistHandler.BlowfishPersistHandler.Load` | src/runtime/kwalletbackend/backendpersisthandler.cpp:320-359 | the loop until the end of the stream rebuilds the folders; which types are kept is said by TakePutEntry |
| `PersistHandler.BlowfishPersistHandler.Read` | src/runtime/kwalletbackend/backendpersisthandler.cpp:217-364 | all return codes and the rebuilt maps are those of the pure reader; the key is wiped exactly when decryption fails |
| `Md5Digest.LessThan` | src/runtime/kwalletbackend/kwalletbackend.h:50-65 | the loop answers by the first byte in which two digests differ |
| `Md5Digest.LessTransitive` | src/runtime/kwalletbackend/kwalletbackend.h:50-65 | the order of digests is transitive |
| `Md5Digest.LessTotal` | src/runtime/kwalletbackend/kwalletbackend.h:50-65 | one of two digests is less if and only if they differ, so the index map takes no two keys for one and finds each key again |
| `PasswordHash.ChunksJoin` | src/runtime/kwalletbackend/kwalletbackend.cc:174-262 | the chunks hashed are consecutive pieces of the password that join to all of it |
| `PasswordHash.KeySize` | src/runtime/kwalletbackend/kwalletbackend.cc:174-262 | the key has 20, 40 or 56 bytes, which the cipher never refuses |
| `PasswordHash.IteratedChain` | src/runtime/kwalletbackend/kwalletbackend.cc:185-192 | a digest iterated n times is the end of any chain of n + 1 values each of which is the digest of the one before |
| `PasswordHash.KeyExact` | src/runtime/kwalletbackend/kwalletbackend.cc:174-262 | the key piece by piece for all four lengths: 2000 digests of each chunk of 16 bytes, of which 20, 20 and 20, 20 and 20 and 16, or four times 14 bytes are joined in the order of the chunks |
| `PasswordHash.Stretch` | src/runtime/kwalletbackend/kwalletbackend.cc:183-192 | the loop with one reused SHA1 object computes the 2000-fold digest and leaves the object reset |
| `PasswordHash.Password2hash` | src/runtime/kwalletbackend/kwalletbackend.cc:174-262 | the key for each of the four lengths of password, piece by piece as in KeyExact |
| `Backend.Backend.SetCipherType` | src/runtime/kwalletbackend/kwalletbackend.cc:146-151 | the cipher of a backend that has none is fixed, nothing else changes |
| `Backend.Backend.SetPassword` | src/runtime/kwalletbackend/kwalletbackend.cc:751-778 | the old key is the hash of the password; an existing salt is used again when it can be read, otherwise a new one is tried; with a salt and a derivation that works the new key is set and used from then on, without them it is blank and its use stays as it was; every state of the salt file |
| `Backend.Backend.Sync` | src/runtime/kwalletbackend/kwalletbackend.cc:444-491 | return code, key in use and file content in every case, also when the disk fails at opening or at any stage of the writing; a failed save leaves the file as it was |
| `Backend.Backend.CloseInternal` | src/runtime/kwalletbackend/kwalletbackend.cc:493-513 | a failed save keeps the wallet open; otherwise contents are dropped |
| `Backend.Backend.Close` | src/runtime/kwalletbackend/kwalletbackend.cc:515-526 | as before, and both keys are blanked |
| `Backend.Backend.OpenInternal` | src/runtime/kwalletbackend/kwalletbackend.cc:352-404 | a missing or short file is created by saving, then the file is loaded |
| `Backend.Backend.Load` | src/runtime/kwalletbackend/kwalletbackend.cc:376-404 | header checks in order, version 1 switches to the new key, then the handler reads; BackendCodes.LoadExact says when each code is returned |
| `Backend.Backend.Open` | src/runtime/kwalletbackend/kwalletbackend.cc:312-320 | refused when open; otherwise password, then open |
| `Backend.Backend.OpenPreHashed` | src/runtime/kwalletbackend/kwalletbackend.cc:333-350 | refused when open or for a hash of a wrong size, otherwise the hash is the key; BackendCodes.PreHashedStored says what it opens |
| `Backend.Backend.RenameWallet` | src/runtime/kwalletbackend/kwalletbackend.cc:533-566 | the file and the salt file move, and the wallet is opened under the new name with the keys it has |
| `Backend.Backend.CreateFolder` | src/runtime/kwalletbackend/kwalletbackend.cc:605-618 | new folder in contents and index, nothing when it exists |
| `Backend.Backend.SetFolder` | src/runtime/kwalletbackend/kwalletbackend.h:112-115 | only the current folder changes |
| `Backend.Backend.WriteEntry` | src/runtime/kwalletbackend/kwalletbackend.cc:649-669 | the entry is stored in the current folder, which comes to exist; the index follows only for a folder it knows |
| `Backend.Backend.RenameEntry` | src/runtime/kwalletbackend/kwalletbackend.cc:620-647 | the entry object moves to the new key when that is free; the folder comes to exist either way |
| `Backend.Backend.RemoveEntry` | src/runtime/kwalletbackend/kwalletbackend.cc:676-701 | entry and all copies of its digest go |
| `Backend.Backend.RemoveFolder` | src/runtime/kwalletbackend/kwalletbackend.cc:703-729 | folder, its digests, and the current folder if it was this one |
| `Backend.Backend.FolderList` | src/runtime/kwalletbackend/kwalletbackend.cc:573-576 | every folder exactly once and nothing else, in ascending order |
| `Backend.Backend.EntryList` | src/runtime/kwalletbackend/kwalletbackend.cc:578-581 | every key of the current folder exactly once and nothing else, in ascending order; none when the folder does not exist |
| `Backend.Backend.ReadEntry` | src/runtime/kwalletbackend/kwalletbackend.cc:583-592 | the entry, only of an open wallet |
| `BackendRuns.LoadSaved` | src/runtime/kwalletbackend/kwalletbackend.cc:376-404 | loading a saved file under the key in use returns 0 and brings back the contents with their exact digests |
| `BackendRuns.SyncSaves` | src/runtime/kwalletbackend/kwalletbackend.cc:444-491 | saving an open wallet succeeds and leaves a file that holds the contents |
| `BackendRuns.FailedSaveKeeps` | src/runtime/kwalletbackend/kwalletbackend.cc:444-491 | whatever fails during a save, the file is the old one or a complete new one, the save succeeds exactly when opening and writing work, the contents stay, and once the disk works again the wallet is as good as before |
| `BackendRuns.FailedCloseKeeps` | src/runtime/kwalletbackend/kwalletbackend.cc:493-526 | closing with a save that fails keeps the wallet open with its contents and keys |
| `BackendRuns.ReopenKeeps` | src/runtime/kwalletbackend/kwalletbackend.cc:312-526 | close(true) and open with the same password is the identity on the contents |
| `BackendRuns.RenameWalletKeeps` | src/runtime/kwalletbackend/kwalletbackend.cc:533-566 | renaming succeeds, keeps the contents and leaves no file under the old name |
| `BackendRuns.RenameLosesSalt` | src/runtime/kwalletbackend/kwalletbackend.cc:533-566 | renaming to a name without a wallet file succeeds and keeps the contents; the password goes on belonging to the wallet if and only if no salt file lay under the new name, or one that is not empty and gives the same key |
| `BackendRuns.ChangePasswordKeeps` | src/runtime/kwalletbackend/kwalletbackend.cc:751-778 | setPassword, close(true) and open with the new password keeps the contents, with the new password from then on |
| `BackendRuns.OpenStored` | src/runtime/kwalletbackend/kwalletbackend.cc:352-415 | opening an existing wallet with its password, whether its file is of version 0 or 1 and block by block (as former releases wrote) or chained, brings back what was saved with an exact index, in the state from which runs start; the next save is a chained version-1 file under the new key |
| `BackendRuns.LoadStored` | src/runtime/kwalletbackend/backendpersisthandler.cpp:217-364 | loading any file of these four forms under its key returns 0 with the contents and their exact digests |
| `BackendRuns.OpenNew` | src/runtime/kwalletbackend/kwalletbackend.cc:352-374 | opening a wallet that does not exist creates it, empty, with an exact index and in the state from which runs start |
| `BackendRuns.EntryStepRefines` | src/runtime/kwalletbackend/kwalletbackend.cc:605-729 | each operation on folders and entries returns what, and changes the contents as, the plain map says |
| `BackendRuns.StepRefines` | src/runtime/kwalletbackend/kwalletbackend.cc:312-778 | the same for every operation, saving, reopening, renaming and password change included |
| `BackendRuns.RunRefines` | src/runtime/kwalletbackend/kwalletbackend.cc:312-778 | over every run of operations the values returned and the contents reached are those of a plain map folder to key to (type, value) |
| `BackendRuns.RunReaders` | src/runtime/kwalletbackend/kwalletbackend.cc:573-603 | after every run the folders, the keys of the current folder and its entries, which the listings and readers return, are those the operations have given the plain map |
| `BackendRuns.DiscardReopens` | src/runtime/kwalletbackend/kwalletbackend.cc:493-526 | whatever is done to folders and entries after a save, close(false) and open bring back exactly what was saved |
| `BackendRuns.StorableMeans` | src/runtime/kwalletbackend/backendpersisthandler.cpp:99-132 | in numbers, the contents a run may save: at most 0xffff folders, types 1, 2 and 3, and sizes that the int fields hold |
| `BackendRuns.VersionMeans` | src/runtime/kwalletbackend/kwalletbackend.cc:384-401 | the forms of file for which stored wallets are proved to come back: version 0.0 or 0.1, cipher 0 or 3, hash 0 or 2 |
| `BackendCodes.AcceptedExact` | src/runtime/kwalletbackend/blowfish.cc:79-127 | a key is accepted if and only if it has 1 to 56 bytes and no two places of one of the four S-boxes of its schedule hold the same word |
| `BackendCodes.PasswordExact` | src/runtime/kwalletbackend/kwalletbackend.cc:751-778 | which salt is used, found or drawn, what is left as salt file when creating it fails, and both keys |
| `BackendCodes.HeaderExact` | src/runtime/kwalletbackend/kwalletbackend.cc:376-401 | the four codes of the header: -2 not readable, -3 other magic bytes, -4 other version, -41 unknown cipher or hash |
| `BackendCodes.BodyCodes` | src/runtime/kwalletbackend/backendpersisthandler.cpp:217-311 | the codes behind a known header, each if and only if: -43 index broken off or too large, -5 no whole blocks, -6 key refused (which blanks it), -9 and -8 as the deciphered block says |
| `BackendCodes.LoadExact` | src/runtime/kwalletbackend/kwalletbackend.cc:376-404 | loading succeeds if and only if the key opens the file, that is if the header is known, the index complete, and the deciphered block names its size and digest; otherwise the wallet is not opened and entries and files stay |
| `BackendCodes.OpenExact` | src/runtime/kwalletbackend/kwalletbackend.cc:312-321 | opening a wallet that is there succeeds if and only if the file can be read and the key of the password opens it; otherwise it stays closed, without contents, and its file as it was |
| `BackendCodes.WrongThenRight` | src/runtime/kwalletbackend/kwalletbackend.cc:312-321 | after a wrong password, however it failed, the right one brings back what was saved, in all four forms of file |
| `BackendCodes.OpenTwice` | src/runtime/kwalletbackend/kwalletbackend.cc:312-316 | -255 if and only if the wallet is open already, and then nothing changes |
| `BackendCodes.OpenInternalCodes` | src/runtime/kwalletbackend/kwalletbackend.cc:352-404 | a missing or short file is created; a save that fails then gives -2 and leaves the wallet open |
| `BackendCodes.SyncExact` | src/runtime/kwalletbackend/kwalletbackend.cc:444-491 | each code of a save if and only if its condition holds; on success the file is magic bytes, version 0.1 or 0.0 with cipher 3 and hash 2 or 0, index and encrypted block under the key in use, otherwise the files stay |
| `BackendCodes.CloseExact` | src/runtime/kwalletbackend/kwalletbackend.cc:493-526 | a failed save keeps the wallet as it was; otherwise it is closed and empty, and every byte of both keys is zero |
| `BackendCodes.RenameExact` | src/runtime/kwalletbackend/kwalletbackend.cc:533-566 | nothing when the file name stays, -17 if and only if a file of the new name is there, the code of a save that fails with the old name kept |
| `BackendCodes.PreHashedRefused` | src/runtime/kwalletbackend/kwalletbackend.cc:333-343 | -255 if and only if open, -42 if and only if closed and the hash has not 20, 40 or 56 bytes, both without effect |
| `BackendCodes.PreHashedStored` | src/runtime/kwalletbackend/kwalletbackend.cc:333-350 | a wallet of any of the four forms saved under the hash comes back; from then on it is saved under that hash, so its password belongs to it if and only if the hash is what the password and the salt file give |
| `BackendIndex.SoundAnswers` | src/runtime/kwalletbackend/kwalletbackend.cc:731-749 | a sound index never reports a name that is absent |
| `BackendIndex.ExactAnswers` | src/runtime/kwalletbackend/kwalletbackend.cc:731-749 | folderDoesNotExist and entryDoesNotExist are right about all names in use if and only if the index is sound and complete |
| `BackendIndex.LoadedExact` | src/runtime/kwalletbackend/backendpersisthandler.cpp:219-247 | when no two names in use have the same digest, the index of a file just read is sound and complete for its contents |
| `BackendIndex.OpenedTruthful` | src/runtime/kwalletbackend/kwalletbackend.cc:352-404 | so after opening a wallet the answers are right about all names in use |
| `BackendIndex.ShortNamesApart` | src/runtime/kwalletbackend/backendpersisthandler.cpp:119-131 | the condition can be met: there are digests under which no two names of up to seven code units collide |
| `BackendIndex.CollisionReported` | src/runtime/kwalletbackend/kwalletbackend.cc:731-736 | a name that is absent but has the digest of a folder is reported as being there, so the condition on the names is needed |
| `BackendIndex.StepIndex` | src/runtime/kwalletbackend/kwalletbackend.cc:605-749 | when no two names in use have the same digest, every operation keeps the index sound, and an exact index stays exact if and only if the operation does not write or rename in a folder that does not exist; the folders the index is blind to change accordingly |
| `BackendIndex.RunIndex` | src/runtime/kwalletbackend/kwalletbackend.cc:605-749 | over every run that uses only names without collisions the index is sound, and complete for all folders but those it has become blind to and not been reloaded or relieved of since |
| `BackendIndex.RunExact` | src/runtime/kwalletbackend/kwalletbackend.cc:605-749 | from right answers every such run ends with right answers if and only if no folder is left that came to exist by a write or rename since the last reload and was not removed |
| `BackendIndex.CarefulExact` | src/runtime/kwalletbackend/kwalletbackend.cc:605-749 | after such a run without reload or removal of a folder the answers are right if and only if no write or rename was in a folder that did not exist |
| `BackendIndex.DeniedUntil` | src/runtime/kwalletbackend/kwalletbackend.cc:620-669 | a folder that comes to exist by a write or a rename in it is denied, with every entry ever put in it, through all later operations until the file is read again or the folder is removed |
| `Decimal.ValuePrint` | src/runtime/ksecretd/kwalletfreedesktopservice.cpp:121-128 | a printed number is read back |
| `Decimal.PrintValue` | src/runtime/ksecretd/kwalletfreedesktopservice.cpp:111-113 | a numeral is printed again as it was read if and only if it has no leading zero |
| `Decimal.PrintMeans` | src/runtime/ksecretd/kwalletfreedesktopservice.cpp:121-128 | a number is printed with its decimal digits, the last one last |
| `Labels.MatchAllCorrect` | src/runtime/ksecretd/kwalletfreedesktopservice.cpp:69-71 | the hand-written matcher finds a split if and only if the regular expression describes it, and there is at most one |
| `Labels.MatchNameExact` | src/runtime/ksecretd/kwalletfreedesktopservice.cpp:69-71 | a name is split if and only if it, without one newline at its end, is as the expression says |
| `Labels.FromNameExact` | src/runtime/ksecretd/kwalletfreedesktopservice.cpp:105-119 | a name of the form label__digits_ is read as label and number when that fits an int, and any other name as itself with -1 |
| `Labels.FolderAndNameMeans` | src/runtime/ksecretd/kwalletfreedesktopservice.cpp:73-92 | folder and name joined by a slash come apart again; a label without a slash, or with one only at its end, is a name in the folder Secret Service |
| `Labels.FromMakeName` | src/runtime/ksecretd/kwalletfreedesktopservice.cpp:105-128 | parsing a printed (label, n) with 0 <= n <= INT_MAX returns it if and only if the label has no newline |
| `Labels.NameRoundTrip` | src/runtime/ksecretd/kwalletfreedesktopservice.cpp:105-133 | a name survives parsing and printing if and only if its copy number has no leading zero and no newline behind it |
| `Labels.LocationRoundTrip` | src/runtime/ksecretd/kwalletfreedesktopservice.cpp:73-138 | location to unique label to location is the identity if and only if the location is canonical: plain copy number, no slash in the folder, a default-folder stem with at most a final slash, a nonempty stem elsewhere |
| `FreshNames.ProbesBounded` | src/runtime/ksecretd/kwalletfreedesktopservice.cpp:664-694 | with pairwise different candidates no more probes than taken names fail |
| `FreshNames.CandidatesMean` | src/runtime/ksecretd/kwalletfreedesktopservice.cpp:664-694 | the candidates in their order: the name itself, then with __0_, __1_ and so on behind it; the path itself, then with 0, 1 and so on |
| `FreshNames.MakeUniqueCollectionLabel` | src/runtime/ksecretd/kwalletfreedesktopservice.cpp:664-675 | the loop ends within as many copies as there are wallets and returns the least copy number whose name is free |
| `FreshNames.MakeUniqueWalletName` | src/runtime/ksecretd/kwalletfreedesktopservice.cpp:677-680 | the prefix, or the prefix with the least copy number, that is not taken |
| `FreshNames.MakeUniqueEntryLocation` | src/runtime/ksecretd/kwalletfreedesktopcollection.cpp:283-303 | folder as the label says; the key is the first candidate that the folder does not have, found within (taken names + 1) probes |
| `FreshNames.MangleInvalidObjectPathChars` | src/runtime/ksecretd/kwalletfreedesktopservice.cpp:38-59 | the loop replaces each byte that no path may have by an underscore and its two hexadecimal digits |
| `FreshNames.MangledInjective` | src/runtime/ksecretd/kwalletfreedesktopservice.cpp:38-59 | names without an underscore are mangled to different strings |
| `FreshNames.MangleCodeMeans` | src/runtime/ksecretd/kwalletfreedesktopservice.cpp:38-59 | letters, digits and the underscore stay; every other byte becomes an underscore and its upper and lower hexadecimal digit |
| `FreshNames.MakeUniqueObjectPath` | src/runtime/ksecretd/kwalletfreedesktopservice.cpp:682-694 | the path is unused, the first of its candidates, and consists of letters, digits and underscores behind the prefix |
| `Attributes.SplitOfText` | src/runtime/ksecretd/kwalletfreedesktopattributes.cpp:82-96 | splitting a joined location gives it back if and only if the folder has no slash |
| `Attributes.TextOfSplit` | src/runtime/ksecretd/kwalletfreedesktopattributes.cpp:87-96 | joining a split text gives it back if and only if it has a slash |
| `Attributes.AttributeStore.RenameLabel` | src/runtime/ksecretd/kwalletfreedesktopattributes.cpp:113-127 | what is stored under the old location moves to the new one, nothing happens when there is nothing |
| `Attributes.AttributeStore.MatchAttributes` | src/runtime/ksecretd/kwalletfreedesktopattributes.cpp:143-174 | the locations that match, in the order in which the JSON object is gone through |
| `Attributes.MatchesInExact` | src/runtime/ksecretd/kwalletfreedesktopattributes.cpp:143-174 | these are exactly the locations whose attributes include all that were asked for |
| `Attributes.MatchesJoin` | src/runtime/ksecretd/kwalletfreedesktopattributes.cpp:143-174 | they come in the order in which the texts are gone through |
| `Attributes.MatchingMeans` | src/runtime/ksecretd/kwalletfreedesktopattributes.cpp:156-170 | attributes match if there are any and all pairs asked for are among them |
| `Attributes.RelocatedMeans` | src/runtime/ksecretd/kwalletfreedesktopattributes.cpp:113-127 | after a rename of a location exactly the stored object has moved, over what was there |
| `Items.CreateAgrees` | src/runtime/ksecretd/kwalletfreedesktopcollection.cpp:149-216 | after a new item items, attributes and entries agree if and only if its location is canonical |
| `Items.ReplaceAgrees` | src/runtime/ksecretd/kwalletfreedesktopcollection.cpp:134-216 | replacing an item keeps the agreement |
| `Items.HalfCreatedDisagrees` | src/runtime/ksecretd/kwalletfreedesktopcollection.cpp:169-205 | a new item whose secret is rejected stays behind without an entry |
| `Items.DeleteAgrees` | src/runtime/ksecretd/kwalletfreedesktopitem.cpp:104-114 | deleting keeps the agreement |
| `Items.RelabelMoves` | src/runtime/ksecretd/kwalletfreedesktopitem.cpp:60-79 | a relabel to a free location moves type, value, attributes and all stamps but the modified one, and touches no other entry or item |
| `Items.RelabelAgrees` | src/runtime/ksecretd/kwalletfreedesktopitem.cpp:60-79 | a relabel keeps the agreement if and only if the new label is good and its location is the old one or free |
| `Items.RelabelOverwrites` | src/runtime/ksecretd/kwalletfreedesktopitem.cpp:66-70 | across folders a taken location is overwritten and the stores disagree |
| `Items.FollowedRenameAgrees` | src/runtime/ksecretd/kwalletfreedesktopservice.cpp:497-521 | after a rename by the wallet the agreement holds if and only if the new name is the old one, or free and canonical |
| `Items.FollowedMissing` | src/runtime/ksecretd/kwalletfreedesktopservice.cpp:497-521 | after a rename of an entry that is not there, which an item of another entry follows, the agreement holds if and only if the new label is the same and no attributes were stored under the text of the old location or the name is the old one |
| `Items.FollowedRenameMoves` | src/runtime/ksecretd/kwalletfreedesktopservice.cpp:497-521 | when the wallet renames an entry to a free canonical name, its item, its secret and all that is stored about it go with it |
| `Items.HalfAgrees` | src/runtime/ksecretd/kwalletfreedesktopcollection.cpp:347-398 | agreement is agreement of items and attributes plus an item for every entry |
| `Items.GoodCanonical` | src/runtime/ksecretd/kwalletfreedesktopservice.cpp:73-103 | a label that comes back from its location has a canonical one, stored under an unambiguous text |
| `SecretCollection.LeadingZeroTaken` | src/runtime/ksecretd/kwalletfreedesktopitem.cpp:60-79 | two agreeing items and a label with a leading zero in its copy number: makeUniqueItemLabel calls its location free, and it names the other item's location, so that removing the absent entry would take away that item |
| `SecretCollection.FoundParamsMean` | src/runtime/ksecretd/kwalletfreedesktopcollection.cpp:361-396 | the attributes server, user and type (binary, map or plaintext by kind) and the two stamps that unlocking writes about an entry, by name |
| `SecretCollection.Collection.constructor` | src/runtime/ksecretd/kwalletfreedesktopcollection.cpp:13-42 | a collection made with a handle starts without items; a locked one gets an item for every location in the attributes file |
| `SecretCollection.Collection.FindItemByEntryLocation` | src/runtime/ksecretd/kwalletfreedesktopcollection.cpp:269-281 | an item with exactly this label, or none has it |
| `SecretCollection.Collection.OnItemDeleted` | src/runtime/ksecretd/kwalletfreedesktopcollection.cpp:416-438 | item and attributes go and one signal is sent; nothing when the item has gone already |
| `SecretCollection.Collection.PushNewItem` | src/runtime/ksecretd/kwalletfreedesktopcollection.cpp:310-315 | the item at the path is replaced, and the old one announces a change when it is destroyed |
| `SecretCollection.Collection.RemoveEntry` | src/runtime/ksecretd/ksecretd.cpp:851-867 | the entry goes and the handler takes away the item with its label, if any; the stores agree afterwards if and only if the location is canonical or no item had its label |
| `SecretCollection.Collection.RenameEntry` | src/runtime/ksecretd/ksecretd.cpp:904-917 | the entry moves if it can, and the handler follows even if it could not; the exact condition for the stores to agree afterwards, for an entry that exists and for one that does not |
| `SecretCollection.Collection.SetLabel` | src/runtime/ksecretd/kwalletfreedesktopitem.cpp:60-79 | new label, moved entry and moved attributes as RelabelAgrees and RelabelMoves describe; in agreeing stores the wallet's signals in the middle reach no item, one change is announced, and the stores agree if and only if the label is good and its location free or the item's own (with a locked wallet: if the label is the old one); in other stores the item that the signal hits is named |
| `SecretCollection.Collection.Delete` | src/runtime/ksecretd/kwalletfreedesktopitem.cpp:104-114 | item, attributes and entry go, in agreeing stores with one ItemDeleted although the wallet's own signal deletes the item first; in other stores the signal may take away a second item, which is named; a locked wallet keeps the entry, and then the stores disagree |
| `SecretCollection.Collection.CreateItem` | src/runtime/ksecretd/kwalletfreedesktopcollection.cpp:104-222 | every branch: locked, no label, empty key, replaced or new item, rejected secret; stores, signals and path returned in each, whatever the stores were, the kind 3, 1 or 2 and the fields by their names included; the item replaced is that of the first match; agreeing stores agree afterwards if and only if the item was replaced, or the secret accepted and the location canonical |
| `SecretCollection.Collection.Place` | src/runtime/ksecretd/kwalletfreedesktopcollection.cpp:134-154 | the item of the first match is replaced if it has one and its location is not two empty names, otherwise path and location are new; in agreeing stores exactly when some entry has all the attributes |
| `SecretCollection.Collection.StoreSecret` | src/runtime/ksecretd/kwalletfreedesktopcollection.cpp:171-217 | 3 (map) by the attribute type, otherwise 1 (password) by the attribute xdg:schema or a mime type text/, otherwise 2 (stream); only the text case is refused for its bytes; nothing is written for an unknown session |
| `SecretCollection.Collection.UnlockEntry` | src/runtime/ksecretd/kwalletfreedesktopcollection.cpp:361-396 | an entry without an item gets one and, if canonical, exactly the attributes server, user and type and the two stamps, and its creation is announced; one that has an item is announced as changed and nothing else changes |
| `SecretCollection.Collection.OnWalletChangeState` | src/runtime/ksecretd/kwalletfreedesktopcollection.cpp:347-398 | on unlocking every entry is visited once, has an item afterwards, and one signal tells of it, created or changed as the case is; no item is lost; if items and attributes were good and all entries are canonical, the stores agree afterwards, earlier attributes are untouched and new ones are those of the entry; locking and a change of handle change neither items nor attributes |
| `WalletView.CallShows` | src/runtime/ksecretd/ksecretd.cpp:783-917 | writeEntry, removeEntry and renameEntry do to the contents of a Backend what they do to the collection's picture of the wallet |
| `WalletView.BackendShows` | src/runtime/ksecretd/ksecretd.cpp:783-917 | over every run of such calls on an open wallet, saved and reopened in between or not, what is in the Backend is what the picture has become |
| `WalletView.EntryShows` | src/runtime/ksecretd/ksecretd.cpp:741-849 | an entry is in the picture if and only if it is in the Backend, with the same type and value |
| `Timers.KTimeout.Clear` | src/runtime/ksecretd/ktimeout.cpp:20-26 | every timer of the table is killed, none is left |
| `Timers.KTimeout.RemoveTimer` | src/runtime/ksecretd/ktimeout.cpp:28-35 | only this id goes, and its timer is killed |
| `Timers.KTimeout.AddTimer` | src/runtime/ksecretd/ktimeout.cpp:37-43 | a timer with the given interval is started now for an id without one; a running one and all others stay |
| `Timers.KTimeout.ResetTimer` | src/runtime/ksecretd/ktimeout.cpp:45-52 | the timer of an id that has one is replaced by a timer started now with the given interval, and all others stay |
| `Timers.KTimeout.TimerEvent` | src/runtime/ksecretd/ktimeout.cpp:54-63 | a running timer is announced under its id; one that is not running under none |
| `Daemon.KSecretD.GenerateHandle` | src/runtime/ksecretd/ksecretd.cpp:119-129 | a handle that is positive and not in use |
| `Daemon.KSecretD.constructor` | src/runtime/ksecretd/kwalletfreedesktopservice.cpp:173-184 | the daemon starts with one locked collection for every wallet on disk that has a name, or with none when it is disabled, and its invariant holds |
| `Daemon.KSecretD.FindWallet` | src/runtime/ksecretd/ksecretd.cpp:131-142 | the handle of that name, or -1 when no open wallet has it |
| `Daemon.KSecretD.InitiateSync` | src/runtime/ksecretd/ksecretd.cpp:554-559 | the wallet has a sync timer, no other is touched |
| `Daemon.KSecretD.GetWallet` | src/runtime/ksecretd/ksecretd.cpp:869-891 | finds exactly the open wallets, and only restarts a timer |
| `Daemon.KSecretD.Change` | src/runtime/ksecretd/ksecretd.cpp:713-724 | an operation on an open wallet leaves a sync timer and keeps the tables |
| `Daemon.KSecretD.InternalOpen` | src/runtime/ksecretd/ksecretd.cpp:294-493 | at most 21 wallets; refused exactly when not open and the table is full or user or disk refuse; otherwise found with one more reference, or new with a handle, timers and, if brand new, a locked collection in the order of paths; the invariant survives if and only if that one does not come before an unlocked collection of the name it gets, as with every plain copy number |
| `Daemon.KSecretD.InternalClose` | src/runtime/ksecretd/ksecretd.cpp:629-642 | wallet, timers and the handle in its collection go together |
| `Daemon.KSecretD.Close` | src/runtime/ksecretd/ksecretd.cpp:644-653 | an open wallet is closed, otherwise -1 |
| `Daemon.KSecretD.PamOpen` | src/runtime/ksecretd/ksecretd.cpp:1010-1065 | refused while requests are processed; opens exactly when it may; the collection found by name holds the new handle, and when there is none the source uses a null pointer, with the exact condition for that and for the invariant |
| `Daemon.KSecretD.TimedOutClose` | src/runtime/ksecretd/ksecretd.cpp:997-1003 | an idle wallet is closed |
| `Daemon.KSecretD.TimedOutSync` | src/runtime/ksecretd/ksecretd.cpp:692-700 | the timer goes, and saving is asked for exactly when the wallet is open |
| `Daemon.KSecretD.EmitWalletListDirty` | src/runtime/ksecretd/ksecretd.cpp:935-944 | exactly the wallets whose file is gone are closed |
| `Daemon.KSecretD.Reconfigure` | src/runtime/ksecretd/ksecretd.cpp:946-985 | close timers cover exactly the open wallets when idle closing is on and none otherwise, whichever setting changed; disabling closes all |
| `Daemon.KSecretD.DeleteWallet` | src/runtime/ksecretd/ksecretd.cpp:495-515 | -1 and no change without a file; with a file the wallet is closed and the first collection of its name goes, if the wallet is open, and a null pointer is used exactly when it is not |
| `Daemon.KSecretD.PromptUnlockCollection` | src/runtime/ksecretd/kwalletfreedesktopservice.cpp:453-471 | the collection found by name, or a new one, holds the handle; with a new one the mirror holds if and only if the name has a plain copy number |
| `Daemon.KSecretD.SetLabel` | src/runtime/ksecretd/kwalletfreedesktopcollection.cpp:54-75 | the backend gets an unused name with that label, and the collection the label unless the rename failed; a null pointer is used exactly when the label is new and the wallet not open; the exact condition for the daemon's invariant, in general and when all names have files |
| `Daemon.Service.LockCollection` | src/runtime/ksecretd/kwalletfreedesktopservice.cpp:473-480 | the first collection of that name loses its handle |
| `Daemon.LockedForMeans` | src/runtime/ksecretd/kwalletfreedesktopservice.cpp:173-184 | the collections the daemon starts with are locked and those of the wallets on disk that have a name |
| `Daemon.LockedMeans` | src/runtime/ksecretd/kwalletfreedesktopservice.cpp:473-480 | of all collections of that name exactly the first one gets the handle -1, and no label changes |
| `Daemon.CloseMirrors` | src/runtime/ksecretd/kwalletfreedesktopservice.cpp:473-480 | closing a wallet and locking the collection found by its name keeps: an unlocked collection names the wallet open under its handle |
| `Daemon.UnlockMirrors` | src/runtime/ksecretd/kwalletfreedesktopservice.cpp:453-461 | so does handing out the handle |
| `Daemon.RenameMirrors` | src/runtime/ksecretd/kwalletfreedesktopcollection.cpp:54-75 | so does renaming, if and only if no other collection has that handle and no earlier one the new name |
| `Daemon.InsertMirrors` | src/runtime/ksecretd/kwalletfreedesktopservice.cpp:461-471 | so does a new collection in any place of the order of paths |
| `Daemon.InsertLockedMirrors` | src/runtime/ksecretd/kwalletfreedesktopservice.cpp:533-539 | so does a new locked collection, if and only if no unlocked collection of its name comes after it |
| `Transactions.Queue.Push` | src/runtime/ksecretd/ksecretd.cpp:189-210 | a request is queued behind all others with a promise of its own, or answered -1 at once when the service is disabled |
| `Transactions.Queue.ProcessTransactions` | src/runtime/ksecretd/ksecretd.cpp:146-187 | requests have their turns in the order of arrival, those arriving during the processing included; a nested call changes nothing; at the end the queue is empty and every promise has finished with exactly one result |
| `Transactions.ToldMeans` | src/runtime/ksecretd/ksecretd.cpp:146-187 | what every promise has been told when the queue is empty: -1 where the same open failed while it waited, otherwise its own result, 0 for a change of password |
| `Transactions.Queue.TakeTurn` | src/runtime/ksecretd/ksecretd.cpp:155-186 | one request leaves the front, requests that arrive meanwhile join the end |
| `Transactions.Queue.EventLoop` | src/runtime/ksecretd/ksecretd.cpp:146-153 | requests that arrive during a dialog are only queued |
| `Transactions.Queue.StrikeSame` | src/runtime/ksecretd/ksecretd.cpp:164-174 | exactly the waiting opens of the same wallet and window are answered -1; they stay queued |
| `Transactions.Queue.Settle` | src/runtime/ksecretd/ksecretd.cpp:158-185 | after the turn every promise says what it should: -1 where an open failed while the same open waited, the own result of an open, 0 for a password change |
| `Transactions.FinishedForGood` | src/runtime/ksecretd/ksecretd.cpp:167-179 | a promise that has finished keeps its result through every later turn, its own included |

## Left out

- GPG wallets, key listing and the GPG handler: foreign calls; `HandlerFor` is that of a build without GPG.
- D-Bus registration, adaptors, prompts, dialogs, sessions and their encryption, aliases: I/O and user interface; what the user decides comes in as a parameter.
- PBKDF2 and MD5: parameters of the model, deterministic functions; the index theorems speak of names no two of which have the same digest.
- The constants of `blowfishtables.h`: the tables are parameters, the theorems hold for all of them.
- Files: a save is one atomic replacement; what fails while a wallet or a salt file is opened, read or written is modelled, moving and removing files and the key derivation leaving a partial key is not.
- Entries are values; the heap objects the source deletes and copies, and null as opposed to empty strings and byte arrays, are not modelled.
- `QDataStream` fields of 2^32 - 2 bytes and more, which newer stream versions write in an extended form.
- A file that ends inside the index or inside an encrypted block of less than 40 bytes: short reads yield zero bytes in the model, uninitialised memory in the source.
- S-boxes are one array of 1024 words, the layout of the source's two-dimensional one; the byte loops that xor and copy buffers are parallel assignments; the eighty macro calls of `transform` are sixteen times the same five.
- `BlowFish::encrypt` and `decrypt` are one method with a direction; `changePassword` is `setPassword`, `close(true)` and `open`.
- `CipherBlockChain::encrypt` on an empty buffer: the source returns an uninitialised count, the model leaves the value open.
- Overwriting of buffers that held secrets, except where a key that is kept is blanked.
- Names of wallets, folders and labels in the daemon are strings of characters; their UTF-8 form comes in as a parameter where it matters.
- The dialogs of `internalOpen` and the checks of `pamOpen` before the backend is open; opening a wallet is one step of the daemon.
- The attributes file and its JSON form: the store is a map from location texts to fields and attributes; the stamps of a whole collection are not modelled.
- `SetSecret`, `setType` and `setAttributes` of an item: each writes one existing entry or one stored object and adds nothing hard.
- `Backend::removeEntry` in a folder that does not exist dereferences the end of the map; it is a precondition, and the daemon asks for the folder first.
- Attributes.AttributeStore.MatchAttributes: the order in which Qt goes through a JSON object is a parameter.
- SecretCollection.Collection.OnWalletChangeState: the order in which the entries are visited is left open.
- Daemon.KSecretD.SetLabel: the daemon's tables keep the wallet's name, not its files; what the backend's rename answers is a parameter.
- Daemon.KSecretD.TimedOutSync: the saving is a flag, because the daemon's table keeps no contents; `Backend.Backend.Sync` is what it stands for.
- Daemon.KSecretD.GenerateHandle: that the random numbers hit a free handle is taken for granted.
- WalletView.BackendShows: how names and secrets of the daemon are encoded is a parameter, injective on names; `WalletView.WideInjective` gives one that is.
- FreshNames.MangledInjective: only for names without an underscore; with one, different names can be mangled alike, and `makeUniqueObjectPath` tells them apart by a number.
- BackendRuns.RunRefines: asks that every saved wallet fits the file format, that keys are accepted, and that a new name has neither wallet nor salt file; `RoundTrip` and `RenameLosesSalt` say what happens otherwise.
