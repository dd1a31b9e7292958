# Proxmark3 firmware cores: models and proofs

This project models the stateful cores of the Proxmark3 ARM firmware and proves
what a reader, a host or a tag relies on. The largest part is the DESFire card
simulator: secure messaging, authentication, chained reads, gathered writes, the
card image with its allocator and transactions, and the two link layers of
ISO/IEC 14443 below it. The others are the BWM serial link (a de-framer and a
byte window), the shared buffer with its trace, the EM4x70 receiver and nonce
search, and the CMAC session of the MIFARE Ultralight AES code.

`dafny verify dfyconfig.toml` checks everything.

| file | models |
|---|---|
| Bytes, Octets, Wrappers | byte strings as bit-vectors (ciphers) and as numbers (memory); optional values |
| Cbc, BlockCode | cipher-block chaining, and the firmware's in-place block loops |
| Cmac, Crc | NIST SP 800-38B and the three one-shot CMACs; checksums as fixed functions |
| SecureSession, Unwrapping | `desfire_sim_state_t`'s session: streaming MACs, answers, incoming commands |
| ReadChain, ReaderSide | reads over several frames; what the client makes of an answer |
| SessionRuns, SessionCode | whole sessions as functions of the bytes on the wire; the card's code for them |
| Handshake | the ISO, AES and legacy mutual authentications |
| WriteGather | write commands over several frames |
| Image, Allocator, CreateApp, CreateFile, Tombstones, CardImage, ImageRuns | the card image, everything that creates, deletes or formats in it, and every run of that |
| Transactions, TransactionCommands | shadows, commit, abort, value files |
| CardExamples | cards made by accepted commands, on which the code fails |
| BlockProtocol, Activation | ISO/IEC 14443-4 blocks over a lossy link; ISO/IEC 14443-3 activation |
| BwmFrame, BwmFlow | the de-framer and its ring; the window of unacknowledged frames |
| BigBuf | allocations from above, trace from below |
| Em4x70, BruteForce | Manchester decoding; the 56-bit nonce search |
| CountedCmac | `append_cmac` and `verify_cmac` |

A block cipher is any permutation of blocks with its inverse, chosen by what of
the key DES looks at; checksums are their bit loops as functions. The honest
reader follows the client (client/src/mifare/desfiresecurechan.c,
desfirecrypto.c and desfirecore.c): its search for the CRC of an enciphered
answer, its two-run legacy token and its own session key derivation are
modelled as they are written. Methods are proved against functions of the old
state, and the lemmas beside them say what those functions promise.

## What turned out false

Each of these is proved with the exact condition under which the code does meet
the property, and a concrete input where it does not (named last).

- The card leaves an EV1 session although the reader did nothing wrong when an
  enciphered answer does not fit its buffer, and when an enciphered write has a
  shorter front that carries its own CRC: it is read as that front, which is
  too short, answered E_LENGTH without a MAC, and the session is dropped
  (`SessionRuns.RunInStep`, `Unwrapping.ShortestFit`;
  `SessionRuns.ShorterFitDrops`, `Unwrapping.EmptyFrontFits`).
- The client looks for the CRC of an enciphered answer near the end of what is
  not zero, and misses it or stops early in other places
  (`ReaderSide.SealedFound`; an answer without data, `NothingIsNotFound`).
- A reader whose DES key differs from the card's in parity bits alone is let in,
  and holds another session key when the two disagree on whether the halves are
  the same (`Handshake.OneSessionKey`; `LowBitsMatter`). So does one that takes for
  two-key what the card takes for single DES, or the other way round.
- `tdes_nxp_send` whitens its input where it stands; from a zero IV that shows
  as soon as a block but the last enciphers to anything but zeros
  (`BlockCode.WhitenedSurvives`, `SecondBlock`). The handshake gives it a copy.
- CreateApplication keeps the image well formed exactly while the card's keys
  fit the 8-bit `keycount`; the guards do not look at it
  (`CreateApp.AppCreateKeeps`; nineteen applications of fourteen keys, each
  accepted, on a card fresh from the factory, `CardExamples.KeysOverflow`).
- Create*File sums in 32 bits. For record files the doubled product can pass
  both checks as a number near 2^32, and the clearing that follows leaves the
  image (`CreateFile.GuardsHold`, `OnlyRecordsOverrun`; `OverrunReached`). The
  model stops there with the answer `Overrun`.
- A created file is found only if no tombstone with its number comes first
  (`CreateFile.CreatedIsFound`; created, deleted and created again,
  `CardExamples.TombstoneHides`), so a deleted number stays unusable until the
  card is formatted (`ImageRuns.GoneForGood`).
- A file whose contents were never read is served after a write to it was
  aborted (`Transactions.AbortedWriteServes`; `CardExamples.UnreadIsServed`), and
  a value file keeps a changed value through an abort
  (`TransactionCommands.AbortKeepsValue`; `CardExamples.AbortedCreditStays`).
- The limits of a value file are signed when it is created and unsigned when its
  value moves. Some credits they forbid are accepted
  (`TransactionCommands.CreditKeepsLimits`; `CreditPastLimit`), and some debits
  and credits they allow are refused (`DebitAccepted`, `CreditAccepted`;
  `DebitRefused`).
- A new write command sent while one is being gathered is appended to it
  (`WriteGather.StartsAfresh`; `TakenForMore`).
- A chained answer or a gathered write is continued in the application and
  session it began in exactly as long as no ISO 7816 SELECT moves elsewhere
  meanwhile and, for a write, nothing resets the card: neither ends it
  (`Activation.RunBelongs`; `ReadStrays`, `WriteStrays`).
- With `PM3_CMD_DATA_SIZE` 4064, a payload of the largest length the de-framer
  accepts never fits its FIFO, although armsrc/bwm_frame.h says that one full
  frame does (`BwmFrame.Survives`, which says so for that length).
- The window covers what the ESP still holds exactly while no more frames were
  given up than acknowledgements are outstanding, lost or came to nothing; with
  frames given up the ESP holds at most so many of the largest frames beyond it,
  and not merely the bytes given up (`BwmFlow.WindowCovers`; twenty bytes given
  up overfill the ESP's ring, `TimeoutOverflows`).

## Model

| member | source | states |
|---|---|---|
| Cbc.ReceiveInvertsSend | armsrc/desfire_crypto.c:68-133 | for every IV and any number of whole blocks, receiving under the inverse operation gives back what was sent (section 6.2 of NIST SP 800-38A) |
| Cbc.SendInvertsReceive | armsrc/desfire_crypto.c:68-133 | and the other way round, so each direction is a bijection |
| Cbc.SendJoins | armsrc/desfire_crypto.c:103-133 | a chain over joined data is two chains with the IV carried from one to the next |
| Cbc.ReceiveAppend | armsrc/desfire_crypto.c:68-101 | the same for the receiving direction |
| Cbc.AfterIsCarry | armsrc/desfire_crypto.c:126-131 | the IV a sending chain leaves is its last ciphertext block |
| BlockCode.TdesNxpSend | armsrc/desfire_crypto.c:103-133 | the block loop writes the CBC chain to the output and leaves the chained IV; an input buffer of its own it leaves with every block XORed with the chaining block it met, and a length that is no multiple of 8 changes nothing |
| BlockCode.WhitenedSurvives | armsrc/desfire_crypto.c:118-131 | from a zero IV that leaves the input as it was if and only if every block sent but the last is zero |
| BlockCode.SecondBlock | armsrc/desfiresim.c:584-592 | a one-block challenge always survives, a two-block one exactly when its first block enciphers to zeros |
| BlockCode.TdesNxpReceive | armsrc/desfire_crypto.c:68-101 | the block loop writes the inverse chain, in place or not, and leaves the last ciphertext block in the IV |
| BlockCode.DesfireSimCrypt | armsrc/desfiresim.c:440-459 | either direction and cipher: the chain in the output, the carried IV, and what becomes of the input |
| BlockCode.MifareCypherSingleBlock | armsrc/desfire_crypto.c:835-934 | one block, either direction and operation: the block and the IV become the next round of the chain |
| BlockCode.MifareCypherBlocksChained | armsrc/desfire_crypto.c:943-970 | the buffer becomes the whole chain and the IV its last wire block |
| BlockCode.D40Receive | armsrc/desfiresim.c:464-478 | enciphering block by block and XORing with the previous input is the receiving chain from a zero IV under the enciphering operation |
| BlockCode.LegacyRoundTrip | armsrc/desfiresim.c:461-478 | the legacy receive gives back everything the reader's SEND/DECYPHER chain carried |
| Cmac.GenerateSubkeys | armsrc/desfire_crypto.c:294-329 | the subkeys are K1 and K2 of section 6.1 of NIST SP 800-38B for both block sizes |
| Cmac.PaddedDataLength | armsrc/desfire_crypto.c:399-408 | the next whole number of blocks, at least one |
| Cmac.OneShot | armsrc/desfire_crypto.c:331-357 | for every message and starting IV the MAC of section 6.2 taken from that IV, which is also the IV left behind |
| Cmac.TwinCmac | armsrc/cmac_calc.c:104-153 | the CMAC of section 6.2 of NIST SP 800-38B for every message |
| Cmac.TwinSubkeys | armsrc/cmac_calc.c:76-94 | the same subkeys from the shift-and-XOR code |
| Cmac.TwinLast | armsrc/cmac_calc.c:118-138 | how many blocks there are and what the prepared last one is, the empty message included |
| Cmac.TwinLoop | armsrc/cmac_calc.c:142-149 | the chain over all blocks but the last |
| Cmac.TwinFold | armsrc/cmac_3des.c:94-106 | the last block, padded or not, with the subkey it calls for |
| SecureSession.AbsorbedIsMac | armsrc/desfiresim.c:839-861 | a chain with its last block held back, finished, is the MAC of everything fed in |
| SecureSession.Session.CmacReset | armsrc/desfiresim.c:804-807 | nothing fed yet, from the current IV |
| SecureSession.Session.CmacUpdate | armsrc/desfiresim.c:809-837 | after any piece, everything but the last 1 to block-size bytes has gone through the chain and those are held |
| SecureSession.Session.CmacFinal | armsrc/desfiresim.c:839-861 | MAC and final IV are those of the one-shot code over all pieces joined |
| SecureSession.Session.LmacUpdate | armsrc/desfiresim.c:875-890 | the legacy MAC taken piece by piece keeps to the chain from zeros |
| SecureSession.Session.LmacFinal | armsrc/desfiresim.c:892-901 | the front of the last block of the zero-padded chain |
| SecureSession.Session.CmacCommand | armsrc/desfiresim.c:911-922 | the IV becomes the MAC over command and parameters; a legacy or absent session is left alone |
| SecureSession.Session.MacedAnswer | armsrc/desfiresim.c:928-948 | the answer carries the MAC over data and status that the session calls for, and the IV moves to it |
| SecureSession.Session.ChainedAnswer | armsrc/desfiresim.c:992-1041 | frames of a chained answer carry their data; only the last one carries the MAC, over the whole transfer |
| SecureSession.Session.EncipheredAnswer | armsrc/desfiresim.c:953-984 | one CBC run over data, CRC-32 with the status, and zeros to whole blocks |
| SecureSession.Session.LegacyEncipheredAnswer | armsrc/desfiresim.c:1047-1065 | the legacy form: the CRC covers the data alone, from a zero IV |
| SecureSession.Session.Respond | armsrc/desfiresim.c:1044-1092 | the wrapper picks MACed or enciphered by mode and session |
| Unwrapping.SearchLength | armsrc/desfiresim.c:1194-1210 | the shortest length whose checksum matches, or a refusal exactly when none does |
| Unwrapping.Unwrap | armsrc/desfiresim.c:1164-1308 | every mode, with and without a session: what is accepted, the plain parameters left, and where the IV goes |
| Unwrapping.SealedFits | armsrc/desfiresim.c:1254-1277 | what the reader sealed matches at its own length |
| Unwrapping.ShortestFit | armsrc/desfiresim.c:1254-1277 | an honest enciphered command is never refused, and is read as sent if and only if no shorter front matches |
| Unwrapping.EmptyFrontFits | armsrc/desfiresim.c:1254-1277 | for every header, data of which the empty front matches |
| Unwrapping.HonestUnwraps | armsrc/desfiresim.c:1164-1308 | in every mode the card's IV ends where the reader's does and the parameters are the reader's |
| ReadChain.ChunkFor | armsrc/desfiresim.c:1342-1370 | for every FSDI the chunk is whole cipher blocks, within 16 to 96, and the frame fits the reader from 32 bytes on |
| ReadChain.ReadStart | armsrc/desfiresim.c:1423-1507 | which requests are refused, and for the others the stream the frames will be cut from |
| ReadChain.Transfer.ReadChunk | armsrc/desfiresim.c:1374-1420 | each frame carries the next piece of that stream and says whether more follows |
| ReadChain.Transfer.EncipheredChunk | armsrc/desfiresim.c:1397-1419 | a piece of data, CRC and zeros goes out enciphered from the carried IV |
| ReadChain.Ask | armsrc/desfiresim.c:1374-1420 | one request makes the stream left strictly shorter and keeps what the reader has joined in step |
| ReadChain.ReadOn | armsrc/desfiresim.c:1374-1507 | the read ends, and the joined payloads are exactly the requested bytes with one MAC, or one CBC run however it was cut |
| ReaderSide.SealedFound | client/src/mifare/desfirecrypto.c:148-193 | the search comes out at the end of the data of what the card sealed if and only if there is data, it reaches within the search, and no place below in reach carries its own CRC |
| ReaderSide.NothingIsNotFound | client/src/mifare/desfirecrypto.c:148-193 | an answer of no data is never found |
| ReaderSide.TakesMaced | client/src/mifare/desfiresecurechan.c:623-665 | a MACed answer built from the reader's IV verifies, says its data, and moves the reader to the card's IV |
| ReaderSide.TakesFull | client/src/mifare/desfiresecurechan.c:666-689 | of an enciphered one the reader always ends on the card's IV, and takes the data for what it is exactly when the search finds its end |
| SessionRuns.SingleFollows | armsrc/desfiresim.c:907-984 | a whole answer: the card stays in the session exactly when it is no error and fits, and then the reader ends on its IV and takes it as meant exactly when it is legible |
| SessionRuns.ChainedFollows | armsrc/desfiresim.c:992-1041 | the same for an answer over several frames |
| SessionRuns.ReadFollows | armsrc/desfiresim.c:2717-2742 | a ReadData: the same, with the committed bytes the file has, exactly when lookup, kind, rights and bounds allow it |
| SessionRuns.FedWhole | armsrc/desfiresim.c:2129-2258 | a write of the length its header settles on is handed on whole, however it is cut |
| SessionRuns.FedRefused | armsrc/desfiresim.c:2146-2222 | one whose header settles on a refusal is refused, however it is cut |
| SessionRuns.HonestApplies | armsrc/desfiresim.c:1995-2128 | parameters taken off whole and allowed take effect and are answered with the MAC; any taken off short are an error |
| SessionRuns.WriteFollows | armsrc/desfiresim.c:2129-2258 | any gathered command from the reader's frames to the files: the card stays in the session exactly when its size is settled and fits, no shorter front matches and the command is allowed, and then the files, the IVs and the reader agree |
| SessionRuns.ShorterFitDrops | armsrc/desfiresim.c:1254-1277 | data that begins with the checksum of the header alone ends the session |
| SessionRuns.RunInStep | armsrc/desfiresim.c:907-1041 | in every run of whole and chained answers, reads and gathered commands the two sides end in step if and only if each was one the card keeps the session for; then after each the IVs agree, the files are as written, and the reader took it as meant exactly when it was legible |
| SessionCode.ServeSingle | armsrc/desfiresim.c:2306-2311 | the command MAC, the answer and the dispatcher compute the card's half of a whole answer |
| SessionCode.ServeRead | armsrc/desfiresim.c:2717-2742 | the lookup, the rights' verdict, the transfer and all its frames compute the card's half of a read |
| SessionCode.ServeRecords | armsrc/desfiresim.c:2752-2783 | the transfer computes it for record reads, once their octets are worked out |
| SessionCode.ServeFrames | armsrc/desfiresim.c:2314-2340 | and frame after frame for GetVersion and GetDFNames |
| SessionCode.Feed | armsrc/desfiresim.c:2129-2258 | frame after frame into the gather buffer computes what the gathering function says |
| SessionCode.ServeWrite | armsrc/desfiresim.c:2129-2258 | gathering, unwrapping and applying compute the card's half of any gathered command |
| SessionCode.Apply | armsrc/desfiresim.c:1995-2128 | the command takes effect or is refused, the answer carries its MAC, and an error ends the session |
| Handshake.TokenOpens | armsrc/desfiresim.c:625-643 | the card opens an honest token to RndA and rotated RndB, ISO, AES and legacy alike |
| Handshake.ReaderReads | armsrc/desfiresim.c:590-674 | the reader reads the challenge as RndB and the last answer as rotated RndA |
| Handshake.AcceptedIsBuilt | armsrc/desfiresim.c:625-657 | a token passes the check if and only if it was built over rotated RndB under this key and IV |
| Handshake.Card.AuthStart | armsrc/desfiresim.c:500-603 | every refusal with its status, or the challenge over the nonce with the handshake in flight and the stored nonce intact behind the cipher that whitens its input |
| Handshake.Card.AuthFinish | armsrc/desfiresim.c:607-691 | a short or wrong token clears everything; a session opens only when the second half is rotated RndB |
| Handshake.ReaderTokenIsToken | client/src/mifare/desfirecore.c:1468-1506 | the client's token, legacy ones built in two runs, is the token over its RndA and rotated RndB |
| Handshake.Completes | client/src/mifare/desfirecore.c:1400-1563 | as functions of the bytes: from the card's challenge the client's token, from that the card's acceptance and answer, from that rotated RndA, for every key that runs the card's cipher, taken for single or two-key DES alike |
| Handshake.OneSessionKey | client/src/mifare/desfirecrypto.c:598-629 | the client's derived and fixed-up key runs the card's session cipher if and only if they agree on whether the key is single DES, or the nonces make up for it; the same for its bytes |
| Handshake.LowBitsMatter | client/src/mifare/desfirecore.c:1549-1554 | keys one parity bit apart that end on different session ciphers |
| Handshake.Authenticate | client/src/mifare/desfirecore.c:1400-1563 | card and client run through the exchange send exactly those frames, and end in a session with those keys |
| Image.AppRoundTrip | include/desfire_em.h:170-179 | an application entry reads back from its 26 packed bytes |
| Image.FileRoundTrip | include/desfire_em.h:192-225 | a file entry reads back from its 26 packed bytes, union included |
| Image.KeyRoundTrip | include/desfire_em.h:237-243 | a key entry reads back from its 28 packed bytes |
| Image.FilesMoved | armsrc/desfiresim.c:1750-1753 | a table moved as a block reads the same |
| Image.FlagsWritten | armsrc/desfiresim.c:1546 | writing one file's flags changes that file's flags and no other entry |
| Image.AppFlagsWritten | armsrc/desfiresim.c:3331-3332 | the same for an application's flags |
| Image.LastWordWritten | armsrc/desfiresim.c:1584-1588 | writing a value changes that file's value and nothing else |
| Allocator.RoundUp | include/desfire_em.h:74-75 | the next granule, below 2^32 |
| Allocator.GapThenEntry | armsrc/desfiresim.c:1887-1892 | the memmove and the memcpy put one entry in and move what is above it up |
| Allocator.InsertedPieces | armsrc/desfiresim.c:1887-1892 | so what is below, the entry, the tables above and the file data are where they should be |
| CreateApp.AppView | armsrc/desfiresim.c:1845-1940 | the parsed view is the old one plus the application, plus its keys as far as the 8-bit count reaches |
| CreateApp.AppCreateKeeps | armsrc/desfiresim.c:1845-1940 | success adds exactly the entry and its keys, moves no file data, charges its cost, and keeps the image well formed if and only if the key count stays below 256 |
| CardExamples.KeysOverflow | armsrc/desfiresim.c:1845-1940 | on a fresh card nineteen applications of fourteen keys are accepted one after the other, and the last leaves the image ill-formed |
| CreateFile.FirstFile | armsrc/desfiresim.c:1314-1325 | the first entry with that number and application, tombstone or not |
| CreateFile.GuardsHold | armsrc/desfiresim.c:1738-1749 | the two 32-bit guards keep the frontiers apart if and only if the reservation fits 16 bits |
| CreateFile.OnlyRecordsOverrun | armsrc/desfiresim.c:1674-1695 | only record files can get past them, with a reservation just below 2^32 |
| CreateFile.OverrunReached | armsrc/desfiresim.c:1733-1777 | record size 262112 with 8193 records does |
| CreateFile.NewFileRegions | armsrc/desfiresim.c:1768-1773 | what was reserved is the data and, when there is one, a shadow of the same length, even when the extent itself wrapped |
| CreateFile.FileView | armsrc/desfiresim.c:1750-1811 | the parsed view is the old one plus the new file |
| CreateFile.FileCreateKeeps | armsrc/desfiresim.c:1708-1812 | success keeps the image well formed, all old entries and file bytes, charges what it took, and the file reads as zeros |
| CreateFile.CreatedIsFound | armsrc/desfiresim.c:1314-1325 | the new file is found if and only if no entry with its number comes before it |
| CardExamples.TombstoneHides | armsrc/desfiresim.c:1314-1325 | a file created, deleted and created again, all accepted, that is not found |
| Tombstones.FilesKilledReads | armsrc/desfiresim.c:3334-3338 | the loop over the file table marks exactly the application's files |
| Tombstones.FileDeleteKeeps | armsrc/desfiresim.c:3222-3248 | the image stays well formed with its data and every other entry, and the lookup for that number comes to rest on the tombstone |
| Tombstones.BuriedStays | armsrc/desfiresim.c:1314-1325 | it does so however the table grows |
| Tombstones.AppDeleteKeeps | armsrc/desfiresim.c:3300-3338 | the image stays well formed, the AID is free again because no other live entry had it, all others are as they were, and none of its files is found |
| CardImage.CompactStep | armsrc/desfiresim.c:1967-1976 | a step of the compaction keeps the kept keys in place and every unread key untouched, though the tables overlap |
| CardImage.FormatKeeps | armsrc/desfiresim.c:1951-1991 | what is left is the PICC entry and exactly its keys in order, no files, all memory, well formed |
| CardImage.Card.FindApp | armsrc/desfiresim.c:217-225 | the first live application with that AID, or none |
| CardImage.Card.CreateApplication | armsrc/desfiresim.c:3250-3297 | every answer to a frame in order, length and key settings included, and the new header and memory exactly when it succeeds |
| CardImage.Card.AppCreate | armsrc/desfiresim.c:1845-1940 | the in-place version of the same |
| CardImage.Card.FindFile | armsrc/desfiresim.c:1314-1325 | the entry the lookup settles on, or none |
| CardImage.Card.FileCreate | armsrc/desfiresim.c:1708-1812 | every answer in order, and the new header and memory exactly when it succeeds |
| CardImage.Card.CreateFile | armsrc/desfiresim.c:2822-2932 | every answer to a frame of the five commands in order: key settings, length, fields with and without ISO ids, value limits, record sizes; and the file it asks for exactly when it succeeds |
| CardImage.Card.DeleteFile | armsrc/desfiresim.c:3222-3248 | every answer to a frame in order, and the file's tombstone in place exactly when it succeeds |
| CardImage.Card.DeleteApplication | armsrc/desfiresim.c:3300-3348 | every answer to a frame in order; on success its tombstone and its files', and the selection dropped if it was the one deleted |
| CardImage.Card.SelectApplication | armsrc/desfiresim.c:2453-2474 | the first live application with that AID is selected, or nothing changes |
| CardImage.Card.FormatPicc | armsrc/desfiresim.c:3351-3368 | the gates in front of the compaction |
| CardImage.Card.Format | armsrc/desfiresim.c:1951-1991 | the loop computes the compaction, in place |
| ImageRuns.StepKeeps | armsrc/desfiresim.c:1674-1991 | whatever frame of a create, delete, select or format comes, the image stays sound and the selected application alive if and only if its numbers fit, and nothing is lost unless it formats |
| ImageRuns.RunKeeps | armsrc/desfiresim.c:1674-1991 | so does every run; without a format every entry is still there, alive or dead since, and no file byte, key or charge is ever lost |
| ImageRuns.GoneForGood | armsrc/desfiresim.c:3222-3248 | in every run without a format, a file deleted is never found again, even if its number is created again |
| Transactions.DataWrite | armsrc/desfiresim.c:2025 | bytes written into one file's data change that region alone, and no table |
| Transactions.ShadowWrite | armsrc/desfiresim.c:2025 | the same for a shadow |
| Transactions.CommittedTo | armsrc/desfiresim.c:1550-1564 | file by file: a dirty file of the selected application takes its shadow and is clean, every other is as it was |
| Transactions.AbortedTo | armsrc/desfiresim.c:1567-1575 | no byte moves and the selected application's files are clean |
| Transactions.StepRefines | armsrc/desfiresim.c:1521-1575 | each operation does to every file what it does to one committed and one pending value |
| Transactions.RunRefines | armsrc/desfiresim.c:1521-1575 | so does every interleaving of writes, commits, aborts and selections |
| Transactions.TransactionMeans | armsrc/desfiresim.c:1521-1575 | before its end the committed bytes stand; commit makes them the old bytes with every write applied in order, abort leaves them |
| Transactions.AbortedWriteServes | armsrc/desfiresim.c:2027-2028 | an aborted write still makes an unread file readable, with unread contents exactly when it has a shadow |
| CardExamples.UnreadIsServed | armsrc/desfiresim.c:2027-2028 | a backup file marked unread that serves what was never read after a write was dropped |
| TransactionCommands.MarkDirty | armsrc/desfiresim.c:1534-1547 | in memory: the shadow becomes a copy once, nothing else changes |
| TransactionCommands.WriteData | armsrc/desfiresim.c:1995-2030 | every answer in order; on success exactly that file is written, in its shadow when it has one |
| TransactionCommands.CommitTransaction | armsrc/desfiresim.c:1550-1564 | the loop over the file table commits the selected application, in place |
| TransactionCommands.AbortTransaction | armsrc/desfiresim.c:1567-1575 | the loop drops its pending writes, in place |
| TransactionCommands.ReadData | armsrc/desfiresim.c:2717-2742 | every answer in order, refusing what is not a data file or what the rights, an input here, do not allow; what is served are committed bytes whatever is pending |
| TransactionCommands.ValueSet | armsrc/desfiresim.c:1584-1588 | the value changes at once, beside a shadow that is marked |
| TransactionCommands.AbortKeepsValue | armsrc/desfiresim.c:1567-1588 | an abort restores a value if and only if it had not changed |
| CardExamples.AbortedCreditStays | armsrc/desfiresim.c:1567-1588 | a created value file whose credit stays although it was dropped |
| TransactionCommands.DebitKeepsLimits | armsrc/desfiresim.c:2101-2106 | an accepted debit takes the amount off and respects both signed limits |
| TransactionCommands.DebitAccepted | armsrc/desfiresim.c:2101-2106 | a debit the signed limits allow is accepted unless the lower one is negative and the value is not |
| TransactionCommands.DebitRefused | armsrc/desfiresim.c:2101-2106 | 1 taken off 10 over a limit of -4 |
| TransactionCommands.CreditAccepted | armsrc/desfiresim.c:2107-2112 | when a credit the signed limits allow is accepted |
| TransactionCommands.CreditKeepsLimits | armsrc/desfiresim.c:2107-2112 | an accepted credit respects them unless the upper one is negative and the sum wraps below the lower |
| TransactionCommands.CreditPastLimit | armsrc/desfiresim.c:2107-2112 | a credit that ends above its limit |
| WriteGather.Gather.Frame | armsrc/desfiresim.c:2129-2258 | from any state and any frame: the bytes held, the size, the answer; nothing ever exceeds the 272-byte buffer |
| WriteGather.AnySplit | armsrc/desfiresim.c:2129-2258 | any split of a complete command is answered ADDITIONAL_FRAME on every proper prefix, handed on exactly once and whole, and leaves the card idle |
| WriteGather.SplitsAgree | armsrc/desfiresim.c:2129-2258 | the outcome and state are those of one-frame delivery |
| WriteGather.WireIsComplete | armsrc/desfiresim.c:2146-2222 | what an honest reader sends is exactly the length the card works out, in every mode |
| WriteGather.HonestWriteArrives | armsrc/desfiresim.c:2129-2258 | however an honest write is cut, the card ends on the reader's IV with the reader's parameters |
| WriteGather.StartsAfresh | armsrc/desfiresim.c:2132-2145 | a frame is taken as the start of its own command if and only if nothing was being gathered, or the bare opcode of the same command |
| WriteGather.TakenForMore | armsrc/desfiresim.c:2132-2145 | the start of a WriteRecord held as more of a WriteData |
| BlockProtocol.Card.OnBlock | armsrc/desfiresim.c:4164-4240 | the reply, the two block numbers, the kept answer and what was executed, for every block |
| BlockProtocol.AnyReader | armsrc/desfiresim.c:4206-4214 | whatever a reader sends, the two numbers stay opposite and a block repeated executes nothing |
| BlockProtocol.RunKeeps | armsrc/desfiresim.c:4143-4240 | the joint invariant of card, link and a reader after sections 7.5.3 and 7.5.4 of ISO/IEC 14443-4, in every run |
| BlockProtocol.Safety | armsrc/desfiresim.c:4143-4240 | whatever is lost, each request executes at most once and in order, and every accepted answer is the answer to the request it was awaited for |
| BlockProtocol.Recovers | armsrc/desfiresim.c:4164-4240 | after any run, one timeout and at most four frames that arrive bring the answer |
| Activation.Loop.Receive | armsrc/desfiresim.c:4002-4240 | the state after every input: field loss, activation, halt, deselect and APDUs |
| Activation.ServeKeeps | armsrc/desfiresim.c:2262-2311 | a command keeps session and handshake bound to the selected application, and only a proven handshake opens a session |
| Activation.RunKeeps | armsrc/desfiresim.c:3544-3583 | in every run: a handshake in flight excludes a session, either belongs to the selected application, and outside the ISO 14443-4 state nothing is authenticated, selected or chained |
| Activation.ActivationOrdered | armsrc/desfiresim.c:4040-4162 | whenever APDUs are served, the run holds the poll, the SELECTs with the card's own UID and the RATS in that order, with no halt or field loss since |
| Activation.RunBelongs | armsrc/desfiresim.c:2262-2312 | in every run what is continued belongs to the application and session it began in if and only if no input moves the card elsewhere without ending it |
| Activation.ReadStrays | armsrc/desfiresim.c:3689-3693 | an ISO 7816 SELECT does |
| Activation.WriteStrays | armsrc/desfiresim.c:3544-3556 | so does losing the field in the middle of a write |
| BwmFrame.Crc16 | armsrc/bwm_frame.c:23-35 | the bit loops fold the CRC over the data |
| BwmFrame.FeedJoins | armsrc/bwm_frame.c:108-218 | feeding two stretches is feeding them joined |
| BwmFrame.RestOfFrame | armsrc/bwm_frame.c:108-218 | from inside a frame, exactly its remaining bytes complete it |
| BwmFrame.GarbageLeaves | armsrc/bwm_frame.c:110-136 | noise without a header pair completes nothing and leaves at most a first byte behind |
| BwmFrame.Deframes | armsrc/bwm_frame.c:108-218 | after any such noise, every frame of any sequence is found whole and in order and the parser ends idle |
| BwmFrame.SealedReads | armsrc/bwm_frame.c:280-301 | a built frame has allowed shape and a good CRC, and its command and payload read back |
| BwmFrame.FrameBuild | armsrc/bwm_frame.c:280-301 | the bytes written are that frame, or none when it does not fit |
| BwmFrame.Ring.Push | armsrc/bwm_frame.c:85-91 | the ring is a queue of 2047 bytes that drops what does not fit |
| BwmFrame.Ring.Pop | armsrc/bwm_frame.c:92-96 | the oldest byte comes out |
| BwmFrame.Survives | armsrc/bwm_frame.h:68-73 | a payload is kept whole if and only if it fits behind what waits; the largest allowed never does |
| BwmFrame.Parser.FeedByte | armsrc/bwm_frame.c:108-218 | every field is what the bytes of the frame so far say; a completed frame has exactly its effect, one with a bad CRC none |
| BwmFrame.Parser.FeedBytes | armsrc/bwm_forward.c:149-162 | of any stretch, the forwarded payloads enter the ring joined and in order, as far as there is room |
| BwmFrame.ReadNg | armsrc/bwm_forward.c:180-207 | what is read and what stays in the ring are what was there and what arrived, in order; it reads short only when nothing more came |
| BwmFlow.Gated | armsrc/bwm_forward.c:121-135 | after the gate there is room for the frame, through any acknowledgements and the timeout |
| BwmFlow.Window.Push | armsrc/bwm_forward.c:52-60 | the ring of lengths is a queue, its byte count their sum |
| BwmFlow.Window.Pop | armsrc/bwm_forward.c:67-74 | the oldest leaves; an empty window is left alone |
| BwmFlow.Window.Send | armsrc/bwm_forward.c:109-146 | gate and push: the window stays within its bytes and its frames |
| BwmFlow.RunKeeps | armsrc/bwm_forward.c:46-102 | the joint invariant of both parties in every run |
| BwmFlow.WindowCovers | armsrc/bwm_forward.h:26-38 | the bounds hold through any losses and timeouts; the window covers what the ESP still holds if and only if no more frames were given up than acknowledgements are outstanding, lost or wasted, and says which frames it holds when as many were given up as lost or wasted; what the ESP holds is bounded by the window and the frames given up |
| BwmFlow.NothingGivenUp | armsrc/bwm_forward.h:26-38 | with nothing given up it fits the ESP's ring |
| BwmFlow.WindowDrains | armsrc/bwm_forward.c:62-66 | once all frames are acknowledged the window is empty if and only if as many frames were given up as acknowledgements were lost or wasted, so always when none was lost |
| BwmFlow.TimeoutOverflows | armsrc/bwm_forward.c:127-134 | one timeout that gives up one frame of twenty bytes, and the ESP's ring overflows |
| BigBuf.BlocksApart | armsrc/BigBuf.c:160-172 | live blocks are aligned, at least as large as asked, inside the buffer and pairwise apart |
| BigBuf.Buffer.Malloc | armsrc/BigBuf.c:160-172 | for every 32-bit size, wrap-around included: a new block below all others, or nothing changes, and exactly when |
| BigBuf.Buffer.Calloc | armsrc/BigBuf.c:174-180 | and the block is zero while everything above and the trace below are as they were |
| BigBuf.Buffer.GetEmAddr | armsrc/BigBuf.c:104-110 | allocated once and then the same |
| BigBuf.Buffer.Free | armsrc/BigBuf.c:183-190 | every block goes, the trace stays |
| BigBuf.Buffer.FreeKeepEm | armsrc/BigBuf.c:193-202 | what was allocated after the emulator memory goes, that memory stays |
| BigBuf.Buffer.LogTrace | armsrc/BigBuf.c:284-343 | exactly when an entry is accepted, which entry, and that no allocation changes |
| BigBuf.WalkReads | include/pm3_cmd.h:190-201 | walking encoded entries by their length gives the entries back |
| BigBuf.TraceReads | armsrc/BigBuf.c:284-343 | in every reachable buffer the trace reads as exactly the accepted entries in order |
| BigBuf.TraceBelow | armsrc/BigBuf.c:160-172 | and no live block reaches down into it |
| Octets.DigitsBack | include/desfire_em.h:205-224 | a packed little-endian field of any width reads back |
| Em4x70.Receiver.PulseLength | armsrc/em4x70.c:279-363 | the time from edge to edge, or 0 when the time runs out |
| Em4x70.NextPulse | armsrc/em4x70.c:1401-1441 | in Manchester code the next pulse is 1, 1.5 or 2 periods exactly by whether the next two bits repeat the last |
| Em4x70.HeaderPulse | armsrc/em4x70.c:1379-1386 | the header's first 0 makes the first pulse of one and a half |
| Em4x70.FindHeader | armsrc/em4x70.c:1379-1391 | of at most 16 leading ones the change to zeros is found |
| Em4x70.ReadPulse | armsrc/em4x70.c:1403-1446 | one pulse reads the one or two bits it stands for and keeps the edge in step |
| Em4x70.Receive | armsrc/em4x70.c:1364-1453 | any message behind a header and before one more coded bit is read exactly, whatever the edges are off within the tolerance |
| BruteForce.CodeReflects | common/commonutil.c:140-142 | the multiply-and-modulo form reverses the bits of every byte |
| BruteForce.ReflectTwice | common/commonutil.c:140-142 | reversing the bits of a byte twice gives it back |
| BruteForce.ReflectInjective | common/commonutil.c:144-147 | no two guesses reflect to the same number |
| BruteForce.SetByte | armsrc/em4x70.c:1135-1139 | the reflected low byte and the carry |
| BruteForce.PlusAdds | armsrc/em4x70.c:1160-1182 | the carry chain adds on any number of bytes, with what falls off the end |
| BruteForce.AddKey | armsrc/em4x70.c:1158-1183 | the bytes below stay, those from the block's place on take the sum |
| BruteForce.NonceValue | armsrc/em4x70.c:1141-1183 | each nonce, read as bit-reversed little-endian bytes, is the original plus the reflected guess at the block's place, modulo 2^56 |
| BruteForce.NoncesDiffer | armsrc/em4x70.c:1141-1183 | different guesses are tried under different nonces |
| BruteForce.BruteForceKey | armsrc/em4x70.c:1141-1207 | every guess from the first on is tried in order until one is accepted or the user stops it, and the key returned is that guess |
| CountedCmac.SecureSession.AppendCmac | armsrc/cmac_calc.c:163-186 | the tag of this counter value is put behind the data in place and the counter moves on, except for oversized data |
| CountedCmac.SecureSession.VerifyCmac | armsrc/cmac_calc.c:188-219 | accepted if and only if the tag is this counter's and, when asked for, the CRC behind it is right; the counter moves on either way |
| CountedCmac.Exchange | armsrc/cmac_calc.c:163-209 | between sides in step an honest message is accepted; what is accepted carries the tag of the receiver's position, and both move on |
| CountedCmac.LossStays | armsrc/cmac_calc.c:43-45 | a counter and its successor never meet |
| CountedCmac.LoseOne | armsrc/cmac_calc.c:163-209 | over a run with one message lost: all before it are accepted; after it each message is checked one position behind where it was tagged, and accepted only if those two tags agree |

## Left out

- The bodies of AES and DES: a cipher is any permutation with its inverse, chosen by the key without the bits DES passes over. The read path's incremental CRC-32 is the same function as the write path's.
- Cmac.OneShot: `cmac()` takes its scratch from BigBuf and never returns it; running out of that scratch is not modelled.
- Unwrapping.Unwrap: works on values where the source trims the gathered buffer in place.
- The access rights and lookups that decide a file's communication mode are an input of WriteGather and SessionRuns; the reader there knows the mode.
- SessionRuns: the client sends an enciphered write of no data unsealed and has no WriteData2 in its list of commands with a MAC; the reader here seals and MACs both as the card expects.
- SessionRuns: what records, credits and debits do to the files is an input, as are the octets of a record read; success answers that carry no MAC although a session is open (GetDFNames with no records, for one) are outside the runs.
- Handshake.Authenticate: key numbers, the lookup of the stored key and the drawing of nonces are inputs; the client's checks of frame lengths are met by construction.
- CardImage.Card.FormatPicc: the header flag that forbids it is an input, as is whether a session with key 0 is open.
- The card identity in the header is not modelled, and the header is a record beside the memory, which no operation here writes below the tables.
- WriteRecord, UpdateRecord and ClearRecordFile: they land bytes like WriteData does, at an offset worked out from the record number.
- Transactions: a file's entry is dirty only if it has a shadow; an uploaded image that says otherwise is outside the model.
- Products of offset and record size in a read stay below 2^32.
- BlockProtocol: the bytes of the block headers, the CID and NAD that are echoed, S(WTX), and answers of length 0, which the probe mode gives and a card without an image.
- Activation: the frames themselves, PPS arguments, the UID comparison, and timing; a command enters with the verdicts the image and the ciphers give.
- `bwm_fwd_negotiate_baud`, the charger and WiFi wrappers, LED, FPGA, DMA and timer code; time is a timeout that may come at any moment.
- The sizes that depend on the platform are those of the build with `PM3_CMD_DATA_SIZE` 4064.
- BwmFrame: the counters and flags that acknowledgements set are the effect a frame has, not fields.
- BwmFlow.Window.Send: an acknowledgement is a number of pops; the statistics are not kept.
- BigBuf.Buffer.LogTrace: entries logged after the time origin moved back are measured from the new origin, as in the source; nothing is claimed about times across such a move.
- BigBuf.TraceReads: the trace is read from where it was last cleared or cut; entries before a nonzero `set_tracelen` are not accounted for.
- BigBuf: `BigBuf_Clear` and the DMA and send buffers, which are ordinary blocks here.
- Em4x70.Receiver.PulseLength: the waveform is sampled at half-bit steps; how far a measured pulse is off is any amount below the tolerance.
- Em4x70.Receive: the receiver starts on a half-bit step.
- The probe mode and the USB test harness of armsrc/desfiresim.c.
