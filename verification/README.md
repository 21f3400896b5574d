# The COPS server in Dafny

A model of the parts of the COPS v7 emulator whose correctness is not visible in any single function, with proofs of
what they promise. Every theorem is for all inputs, all runs and all contents of the tables.

`Basics` holds what several modules share.

**The secure channel.** `Rotation` and `Words` are 32-bit words and 8-byte blocks. `Feedback` is a self-synchronising
byte stream over any block function, cut into calls in any way; `Cfb64` is the 64-bit register both ciphers keep.
`Blowfish`, `Cast5` and `Rc5` are the ciphers, as values and as the objects that work in place. `Numerals` prints and
reads hexadecimal numbers, `DiffieHellman` is the exchange, `Frames` the splitter of sealed messages, and `SecureChannel`
the connection: the exchange, the switch to the negotiated key in the middle of a received buffer, and what is dispatched.

**The shared map state.** `MapData` swaps a map's cells with a packed buffer under a set of users; `Activation` puts any
number of maps and generators on one such buffer. `ViewSets` says who sees whom, as values and over every run.
`Broadcast`, `GameMaps` and `GameWorld` are the entities, maps and the world as the objects the server updates in place;
each operation is proved to be the one `ViewSets` and `Activation` specify, with several maps sharing data.
`MapLoading` and `MapWorkers` load the map files with any number of workers.

**Allocators and codecs.** `Spawning` holds the generators and the sweep under one budget, `MonsterUids` the identifiers
with recycling, `StringPacker` the length-prefixed strings, and `Logger` the queue between producers and the writing
thread, with the mutex, the condition and the shutdown as explicit steps.

Each operation under a mutex is one step unless its module says otherwise. Concurrent parts (`MapWorkers`, `Logger`,
`Activation`) are step systems; what updates objects in the source is a class here, and its methods are proved against
functions on values.

Where the code does not do what it is for, the exact condition under which it does is proved: `Rc5.ServerRoundTrip`
(encrypt and decrypt differ by a round), `MapWorkers.ParallelIsSequentialIff` (a map id listed for two files),
`MapData.UnpackAllWorksIff` (a pack inside unpackAll), `StringPacker.OnlyTheLatestRemain` (the 256th string),
`Spawning.DrawsStayInsideIff` (a first draw past 65,535), `Spawning.MonstersStayInsideIff` (a monster's place past 65,535),
`Spawning.LooksStayInsideIff` (cells that are not there), `GameMaps.GameMap.KickBackEndsIff` (a step back that is refused
too) and `ViewSets.EveryPair` (a monster that appears beside a player).

## Model

| member | source | states |
|---|---|---|
| Rotation.RotrRotl | src/Security/Cryptography/rc5.h:92-106 | A right rotation undoes the left rotation by the same amount, for every word and every amount, zero included |
| Rotation.RotlRotr | src/Security/Cryptography/rc5.h:92-106 | A left rotation undoes the right rotation by the same amount |
| Rotation.RotlOne | src/Security/Cryptography/rc5.h:92-97 | A left rotation by one moves every bit one place up and the top bit to the bottom |
| Rotation.RotlMore | src/Security/Cryptography/rc5.h:92-97 | A left rotation by one more is one place further, so with RotlOne the amount is counted modulo 32 for every amount |
| Words.LoadStore | src/Security/Cryptography/blowfish.cpp:252-261 | Reading a block as two words and storing the words are inverse to each other, both ways |
| Words.LoadIsBigEndian | src/Security/Cryptography/blowfish.cpp:252-261 | The two words of a block have the value of its first and last four bytes, most significant first |
| Feedback.EncryptConcat | src/Security/Cryptography/blowfish.cpp:264-288 | Encrypting a concatenation is encrypting its parts one after the other, the register of the first call carried into the second |
| Feedback.DecryptConcat | src/Security/Cryptography/blowfish.cpp:291-316 | The same for decryption |
| Feedback.EncryptCallsIsOneCall | src/Security/Cryptography/blowfish.cpp:264-288 | Any row of encrypt calls gives the bytes and the final register of one call on everything |
| Feedback.DecryptCallsIsOneCall | src/Security/Cryptography/blowfish.cpp:291-316 | Any row of decrypt calls gives the bytes and the final register of one call on everything |
| Feedback.DecryptUndoesEncrypt | src/Security/Cryptography/blowfish.cpp:264-316 | For any block function and any byte mixing that undoes itself: decryption from an equal register recovers the plaintext and ends in an equal register |
| Feedback.EncryptUndoesDecrypt | src/Security/Cryptography/blowfish.cpp:264-316 | The other direction: encrypting what decryption made of any bytes gives those bytes back |
| Feedback.StreamRoundTrip | src/Security/Cryptography/blowfish.cpp:264-316 | However the sender cuts the plaintext into calls and however the receiver cuts the ciphertext, the plaintext arrives and the final registers are equal |
| Feedback.RegistersAgree | src/Security/Cryptography/cast5.cpp:408-461 | After the same number of bytes on both sides the two registers are equal, at every byte of the stream |
| Cfb64.XorIsInvolutive | src/Security/Cryptography/blowfish.cpp:271-287 | The mixing undoes itself, so the stream theorems apply to both ciphers; that it is the exclusive or is in StreamBytes |
| Cfb64.Position | src/Security/Cryptography/blowfish.cpp:271-287 | The position in the register is the number of bytes so far modulo 8 |
| Cfb64.CfbBlocksChain | src/Security/Cryptography/blowfish.cpp:264-288 | The recursive block definition satisfies the equation C_j = P_j xor E(C_{j-1}) of section 6.3 of NIST SP 800-38A with 64-bit segments |
| Cfb64.ByteLoopIsCfb | src/Security/Cryptography/cast5.cpp:408-461 | Over whole blocks from position 0 the byte loop produces exactly the ciphertext that satisfies that equation, and leaves the last ciphertext block in the register |
| Cfb64.TrailingBytes | src/Security/Cryptography/cast5.cpp:408-461 | A trailing partial block is the prefix of the block the equation would give next |
| Cfb64.StreamBytes | src/Security/Cryptography/blowfish.cpp:264-288 | Byte by byte over whole blocks from position 0: each byte that leaves is the plaintext byte xor the same byte of E applied to the ciphertext block before it, the vector in front |
| Blowfish.DecipherUndoesEncipher | src/Security/Cryptography/blowfish.cpp:335-381 | For every block, any P-array and any round function: decipher undoes encipher |
| Blowfish.DecipherIsReversedEncipher | src/Security/Cryptography/blowfish.cpp:360-381 | decipher is encipher under the P-array read backwards, and the other way round |
| Blowfish.EncipherUndoesDecipher | src/Security/Cryptography/blowfish.cpp:335-381 | encipher undoes decipher, so both are permutations |
| Blowfish.BlockRoundTrip | src/Security/Cryptography/blowfish.h:100-104 | The same round trip with the cipher's own round function over any S-boxes |
| Blowfish.EncipherByHalves | src/Security/Cryptography/blowfish.cpp:335-357 | encipher computed by its halves as one sequence: each one is the last but one xor F of the last xor the next key word, for sixteen rounds, and the last but one is whitened by the 18th word |
| Blowfish.FOfBytes | src/Security/Cryptography/blowfish.h:100-104 | The round function on a word given by its bytes a b c d is ((S1[a] + S2[b]) xor S3[c]) + S4[d] |
| Blowfish.CipherBytes | src/Security/Cryptography/blowfish.cpp:264-288 | Over whole blocks from position 0 each byte the cipher sends is the plaintext byte xor the same byte of the enciphered ciphertext block before it |
| Blowfish.CyclicSeed | src/Security/Cryptography/blowfish.cpp:219-233 | The tables depend on the seed only through its cyclic repetition: equal repetitions give equal tables |
| Blowfish.SeedBeyondLimit | src/Security/Cryptography/blowfish.cpp:216-217 | Bytes of the seed beyond the 72nd change nothing |
| Blowfish.SeedWordIsLoad | src/Security/Cryptography/blowfish.cpp:225-231 | A seed word is the four cyclic bytes from a position on, the first one most significant |
| Blowfish.MixedAlikeIff | src/Security/Cryptography/blowfish.cpp:222-233 | Two seeds of at most 72 bytes mix the P-array alike if and only if they repeat to the same 72 bytes |
| Blowfish.MixedWord | src/Security/Cryptography/blowfish.cpp:222-233 | Word i of the P-array is mixed by exclusive or with the four seed bytes from 4 i on, read cyclically, most significant first |
| Blowfish.ScheduleIsChain | src/Security/Cryptography/blowfish.cpp:235-249 | The 1042 table words are the 521 pairs of a chain in order: each pair is the one before it enciphered under the tables with all earlier pairs in place, from zero on |
| Blowfish.Cipher.Encipher | src/Security/Cryptography/blowfish.cpp:335-357 | The in-place loop of two rounds a turn computes the sixteen-round network and the final whitening |
| Blowfish.Cipher.Decipher | src/Security/Cryptography/blowfish.cpp:359-381 | The in-place loop computes the inverse network |
| Blowfish.Cipher.Encrypt | src/Security/Cryptography/blowfish.cpp:263-288 | The byte loop changes exactly the given stretch of the buffer into the stream encryption of it, and its register into the stream's |
| Blowfish.Cipher.Decrypt | src/Security/Cryptography/blowfish.cpp:290-316 | The same for decryption; the other direction's register is untouched |
| Blowfish.Cipher.SetIVs | src/Security/Cryptography/blowfish.cpp:318-333 | A given vector replaces its register at position 0; a missing one leaves its register alone |
| Blowfish.Cipher.ReadSeed | src/Security/Cryptography/blowfish.cpp:226-231 | Four seed bytes, read cyclically, most significant first |
| Blowfish.Cipher.GenerateKey | src/Security/Cryptography/blowfish.cpp:210-250 | The tables become the schedule of the fixed initial tables and the seed, whatever the cipher held before; registers and positions stay |
| Cast5.ReversedCryptUndoes | src/Security/Cryptography/cast5.cpp:480-507 | A Feistel network of any number of rounds with any round functions is undone by the reversed list of round functions, both ways |
| Cast5.CastIsUndone | src/Security/Cryptography/cast5.cpp:480-507 | So the cipher of RFC 2144 is undone by its reversed key order, for 12 and for 16 rounds, any S-boxes and sub-keys |
| Cast5.OperatorsOfRound | src/Security/Cryptography/cast5.cpp:486-503 | The three rotating indices select addition, exclusive or and subtraction in the order of the round type |
| Cast5.OperatorsSpellRfc | src/Security/Cryptography/cast5.cpp:509-524 | Those operators are the masking and the combination of the three round types of section 2.2 of RFC 2144 |
| Cast5.FastRoundIsRfc | src/Security/Cryptography/cast5.cpp:390-394 | Adding 16 to the rotation key and reading the S-box bytes in the permuted order computes the round function of section 2.2 of RFC 2144, for every round |
| Cast5.RotatedWords | src/Security/Cryptography/cast5.cpp:509-524 | The rotated word of the three types: the masking word plus, xor or minus the data half, rotated by five bits of the rotation word |
| Cast5.RoundsOfBytes | src/Security/Cryptography/cast5.cpp:509-524 | The three round types on the rotated word given by its bytes: ((S1 xor S2) - S3) + S4, ((S1 - S2) + S3) xor S4 and ((S1 + S2) xor S3) - S4, each byte selecting from its own box |
| Cast5.CastByHalves | src/Security/Cryptography/cast5.cpp:480-507 | The cipher computed by its halves as one sequence: each one is the last but one xor the round function of the last, and the last two come out exchanged, after sixteen rounds or twelve |
| Cast5.CipherBytes | src/Security/Cryptography/cast5.cpp:408-433 | Over whole blocks from position 0 each byte the cipher sends is the plaintext byte xor the same byte of the enciphered ciphertext block before it |
| Cast5.Cipher.E_CAST | src/Security/Cryptography/cast5.cpp:530-543 | One round: the returned half is the old half mixed with the fast round function |
| Cast5.Cipher.Encipher | src/Security/Cryptography/cast5.cpp:480-507 | The alternating in-place loop over the biased key computes the textbook cipher of RFC 2144 for 12 or 16 rounds |
| Cast5.Cipher.Encrypt | src/Security/Cryptography/cast5.cpp:408-433 | The byte loop is the stream encryption of the given stretch, for the CAST5 block function |
| Cast5.Cipher.Decrypt | src/Security/Cryptography/cast5.cpp:435-461 | The byte loop is the stream decryption of the given stretch |
| Cast5.PaddedIs | src/Security/Cryptography/cast5.cpp:298-320 | A long seed is cut to sixteen bytes, a short one filled up with zeros |
| Cast5.Cipher.GenerateKey | src/Security/Cryptography/cast5.cpp:293-395 | The padded seed is expanded, the bias of 16 added to each rotation key, short keys marked, and both positions reset |
| Rc5.ReleaseAbsorb | src/Security/Cryptography/rc5.cpp:88-89 | One half-round of decryption undoes the half-round of encryption, for every word and key, and the other way round |
| Rc5.RoundTrip | src/Security/Cryptography/rc5.cpp:80-135 | For every key table and every round count, the inverse rounds undo the rounds of section 6 of RFC 2040, both ways |
| Rc5.BufferRoundTrip | src/Security/Cryptography/rc5.cpp:80-135 | The same for a buffer of any number of blocks |
| Rc5.RoundsReachHalves | src/Security/Cryptography/rc5.cpp:86-92 | The rounds by their halves as one sequence, as section 6 of RFC 2040 adds, xors and rotates them; the server's encrypt ends at the 22nd and 23rd half |
| Rc5.ServerRoundTrip | src/Security/Cryptography/rc5.cpp:86-125 | The server's own encrypt runs eleven rounds and its decrypt twelve: a block survives if and only if its ciphertext is a fixed point of round twelve |
| Rc5.SomeBlockIsLost | src/Security/Cryptography/rc5.cpp:86-125 | For every key there is a block that decrypt does not recover from encrypt |
| Rc5.SubtractingIsAddingQ | src/Security/Cryptography/rc5.cpp:46-51 | Subtracting 0x61C88647 is adding the constant Q of RFC 2040 modulo 2^32 |
| Rc5.LittleEndianKeyWord | src/Security/Cryptography/rc5.cpp:37-44 | A little-endian key word is what section 5 of RFC 2040 absorbs byte by byte |
| Rc5.ExpandedIsThirdPass | src/Security/Cryptography/rc5.cpp:46-64 | The expanded key are the words of the third of three passes of section 5 of RFC 2040, each cell read as it was written one pass before, over the table that starts at 0xB7E15163 in steps of 0x9E3779B9 |
| Rc5.Cipher.GenerateKey | src/Security/Cryptography/rc5.cpp:32-65 | The loops compute the key expansion of section 5 of RFC 2040 |
| Rc5.Cipher.Encrypt | src/Security/Cryptography/rc5.cpp:67-100 | The in-place loops are eleven rounds on each pair of words of the buffer |
| Rc5.Cipher.Decrypt | src/Security/Cryptography/rc5.cpp:102-135 | The in-place loops are twelve inverse rounds on each pair of words |
| Numerals.ParsePrinted | src/Security/Cryptography/diffiehellman.cpp:111-140 | Reading the printed hexadecimal form of a number gives the number |
| Numerals.ParseLower | src/Security/Cryptography/diffiehellman.cpp:94-108 | Lower-casing a numeral does not change what it is read as |
| Numerals.DigitsAreHex | src/Security/Cryptography/diffiehellman.cpp:94-140 | The digits are 0 to 9 and A to F, read in either case, and lower-casing turns one case into the other |
| Numerals.HexDigits | src/basefunc.cpp:43-45 | The characters that pass for hexadecimal are those digits and no others |
| Numerals.ParseConcat | src/Security/Cryptography/diffiehellman.cpp:111-123 | A digit counts by the power of sixteen of its position |
| Numerals.PrintedLength | src/Security/Cryptography/diffiehellman.cpp:125-132 | A number prints in at most k digits if and only if it is below 16^k |
| Numerals.HexBytesValue | src/basefunc.cpp:35-55 | The decoded bytes, most significant first, have the value of the digits, for odd and even lengths |
| Numerals.Hex2Bin | src/basefunc.cpp:35-55 | The backward loop succeeds exactly on hexadecimal text, sets the length to half the digits rounded up, writes the decoded bytes, and on failure only the pairs behind the last bad one |
| DiffieHellman.SecretsAgree | src/Security/Cryptography/diffiehellman.cpp:54-88 | For every modulus, base and exponents, (g^b mod p)^a mod p equals (g^a mod p)^b mod p equals g^(ab) mod p |
| DiffieHellman.ModPowerLaws | src/Security/Cryptography/diffiehellman.cpp:54-88 | The power zero is 1 mod p, and one power more is one factor more, modulo p |
| DiffieHellman.ModPowerIsRepeated | src/Security/Cryptography/diffiehellman.cpp:54-88 | The modular power is what repeated multiplication modulo p reaches, from 1 mod p on, for every base, exponent and modulus |
| DiffieHellman.ReadPrinted | src/Security/Cryptography/diffiehellman.cpp:94-140 | A number survives being printed, lower-cased and read |
| DiffieHellman.KeyAgreement | src/Security/Cryptography/diffiehellman.cpp:54-88 | Both ends reach the same secret when the public keys travel as printed texts: the ab-th entry of the row of powers of g |
| DiffieHellman.Exchange.GenerateRequest | src/Security/Cryptography/diffiehellman.cpp:54-63 | The request text stands for g^a mod p for the prime that was drawn |
| DiffieHellman.Exchange.GenerateResponse | src/Security/Cryptography/diffiehellman.cpp:65-77 | The response text stands for g^b mod p, and the secret is the request raised to b |
| DiffieHellman.Exchange.HandleResponse | src/Security/Cryptography/diffiehellman.cpp:79-88 | The returned text is the printed secret, the response raised to a |
| DiffieHellman.AgreeOnSecret | src/Security/Cryptography/diffiehellman.cpp:54-88 | A whole exchange between two objects: the text one returns is the printed secret the other holds, the ab-th entry of the row of powers of g |
| Frames.SplitSealed | src/server.cpp:343-386 | On any frames of 4 to 1024 bytes with a seal behind each, the loop dispatches exactly those frames in order and stops at the end of the buffer |
| Frames.SplitOnTheWire | src/server.cpp:343-386 | The same in bytes: frames of 4 to 1024 bytes whose first two are their length, low byte first, and eight-byte seals that begin with the bytes of TQ |
| Frames.SplitIffItems | src/server.cpp:343-386 | The loop ends exactly at the end of the buffer if and only if the buffer is a row of well-formed frames and seals |
| Frames.ItemsOfSplit | src/server.cpp:343-386 | And then what it dispatched are the frames of that row |
| Frames.SplitBuffer | src/server.cpp:343-386 | The loop over the received array computes the specification of the splitter |
| SecureChannel.SeedOfSecret | src/Network/msgloginchallenges.cpp:59-70 | The seed of every secret is its big-endian bytes and not empty; a 512-bit secret gives at most 64 bytes, so the limit of 72 never cuts it |
| SecureChannel.SeedIsInjective | src/Network/msgloginchallenges.cpp:59-70 | Different secrets give different seeds |
| SecureChannel.ModulusFits | src/client.cpp:116-137 | The modulus of the exchange is above 1 and has at most 128 hexadecimal digits |
| SecureChannel.KeyOfPower | src/Network/msgloginchallenges.cpp:59-70 | The key both sides end up with is the schedule of the secret g^(ab), reached by repeated multiplication modulo p |
| SecureChannel.ReadResponsePrefix | src/Network/msgloginchallenges.cpp:42-57 | What is read from a response does not depend on the bytes behind its announced size |
| SecureChannel.IntAtIsSigned | src/Network/msgloginchallenges.cpp:46-48 | Sizes are four bytes, low byte first, as a signed number |
| SecureChannel.CStringStops | src/Network/msgloginchallenges.cpp:51-60 | A zero ends the key, whatever is behind it |
| SecureChannel.ReadIffKeyLies | src/Network/msgloginchallenges.cpp:42-57 | A response is read if and only if at least 21 bytes of it are there and the key's length and the key, 15 bytes and the size of the junk behind the front, lie in it; then it is that key |
| SecureChannel.SwitchInMidBuffer | src/server.cpp:300-391 | A buffer with one exchange response followed by any sealed frames: the response is read under the old key, the rest from its first byte under the key the peer derived, exactly the peer's frames are dispatched, and the decrypting register ends equal to the peer's encrypting one |
| SecureChannel.BuiltIsRead | src/Network/msgloginchallenges.cpp:35-57 | A response built of padding, size, junk, key and seal is read back, the whole of it and the key in it, unless it is shorter than the 21 bytes every response is asserted to have |
| SecureChannel.PeerAnswers | src/server.cpp:300-391 | The key switch, with both sides in step after it, for every response a peer builds, with whatever padding and junk |
| SecureChannel.SealedFramesArrive | src/server.cpp:331-391 | A later buffer of sealed frames is dispatched frame by frame, and leaves the two sides in step |
| SecureChannel.TooShortIff | src/server.cpp:288-337 | A buffer is ignored and not decrypted exactly when it has fewer than four bytes; one without a whole response in the status KEY_EXCHANGE is a bad response |
| SecureChannel.RowOfSends | src/client.cpp:158-173 | Any row of sends puts on the wire one encryption of the sealed messages, and a peer in step that receives them in one buffer dispatches exactly the messages |
| SecureChannel.BuffersArrive | src/server.cpp:331-391 | Any row of buffers in the status NORMAL, each a group of sealed frames encrypted under the running register, dispatches exactly the groups in order |
| SecureChannel.SessionArrives | src/server.cpp:286-397 | A whole session: the response with any sealed frames behind it, then any number of buffers, each a group of sealed frames under the running register; what is dispatched are exactly the groups, buffer by buffer, in order |
| SecureChannel.Client.GenerateExchangeRequest | src/client.cpp:115-138 | The request stands for G^a mod P, and the message that carries it leaves sealed and encrypted; the decrypting side is untouched; the status KEY_EXCHANGE, which the connection handler sets just before, is part of the step |
| SecureChannel.Client.HandleExchangeResponse | src/Network/msgloginchallenges.cpp:35-73 | A well-formed response gives the negotiated key, both vectors at position 0, and status NORMAL; a malformed one, on which the source would read outside the buffer or fail an assertion, changes nothing; a negative junk size is followed backwards as the source does |
| SecureChannel.Client.DecryptResponse | src/server.cpp:308-328 | The two uneven decrypt calls equal one decryption of the whole response and leave the rest of the buffer alone |
| SecureChannel.Client.DecryptMore | src/server.cpp:312-337 | Consecutive uneven decrypt calls on the buffer amount to one decryption of everything up to the end of the last |
| SecureChannel.Client.ReceiveExchange | src/server.cpp:300-330 | In the status KEY_EXCHANGE: the response is handled under the old key, the negotiated key and vectors are set, and the bytes behind the response come to the front untouched |
| SecureChannel.Client.ReceiveHandler | src/server.cpp:286-397 | The in-place handler computes the specified outcome and decrypting side, key and register, in every status, so the next buffer continues from there; the status becomes NORMAL exactly when the buffer holds a whole response |
| SecureChannel.Client.Send | src/client.cpp:158-173 | A message leaves with the seal behind it, both encrypted as one stream |
| MapData.CellRoundTrip | src/Map/mapdata.cpp:394-462 | The three bytes of a cell give the cell back, negative altitudes included |
| MapData.CellBytesAre | src/Map/mapdata.cpp:394-404 | The bytes of a cell are the flag and the altitude modulo 2^16, low byte first |
| MapData.SerializeRoundTrip | src/Map/mapdata.cpp:375-478 | Every grid survives its byte form |
| MapData.StepKeepsGrid | src/Map/mapdata.cpp:375-478 | Each of pack, unpack, resume and unpack-then-suspend keeps the logical grid, and keeps the cells readable while packing is suspended or someone uses them |
| MapData.PackedIffUnused | src/Map/mapdata.cpp:375-478 | pack leaves the cells packed if and only if packing is on and no user is left; unpack always leaves them readable |
| MapData.RunKeepsGrid | src/Map/mapdata.cpp:375-478 | After any sequence of those steps the logical grid is the loaded one and the cells are readable whenever someone relies on them |
| MapData.RefsFollowLastCall | src/Map/mapdata.cpp:375-440 | A caller is in the reference set exactly when it unpacked after it last packed |
| MapData.UnpackAllWorksIff | src/Map/mapmanager.cpp:318-333 | Whatever packs and unpacks of others come between unpackAll's two calls on a map, the cells end in memory if and only if packing was suspended already or no pack between them that left no user had the last word |
| MapData.LastPlayerLeavesInBetween | src/Map/mapmanager.cpp:318-333 | The last player leaving the map between the two calls leaves the data suspended and packed |
| MapData.SuspendedPackedStays | src/Map/mapdata.cpp:429-478 | From then on no unpack brings the cells back before packing is resumed: a later user finds none |
| MapData.Pos2IdxInjective | src/Map/mapdata.h:116-116 | Valid points fall on different indexes inside the array |
| MapData.RowByRow | src/Map/mapdata.h:116-116 | Cells lie row by row, each row from left to right |
| MapData.Data.Pack | src/Map/mapdata.cpp:375-427 | The object's state after pack is the specified one: packed bytes exactly when packing is on, cells are present and no user is left |
| MapData.Data.Unpack | src/Map/mapdata.cpp:429-478 | The object's state after unpack is the specified one, and the cells are present |
| MapData.Data.WriteCells | src/Map/mapdata.cpp:389-404 | The nested loops write the byte form of the grid row by row |
| MapData.Data.ReadCells | src/Map/mapdata.cpp:450-463 | The nested loops read the grid back |
| MapData.Data.GetCell | src/Map/mapdata.h:68-69 | The access finds a cell exactly when the index stays inside the cells in memory; while the data is used or packing suspended it is the loaded cell at every valid point |
| MapData.UnpackAll | src/Map/mapmanager.cpp:318-333 | Afterwards every map's cells are in memory with packing suspended, users unchanged |
| MapData.PackAll | src/Map/mapmanager.cpp:300-315 | Afterwards packing is on, and a map's cells are in memory exactly when someone uses them |
| Activation.NextKeepsCount | src/Map/gamemap.cpp:130-172 | Each event keeps every map's counter equal to its players, and its reference present exactly while the counter is positive |
| Activation.EveryRunCounts | src/Map/gamemap.cpp:130-172 | So after any interleaving of entries, exits, generator turns, packAll and unpackAll on one shared MapData |
| Activation.EveryRunWho | src/Map/gamemap.cpp:130-172 | After any interleaving an entity is on a map exactly when its last event there was an entry, and a generator uses the data exactly when its last event was the beginning of a turn |
| Activation.EveryRunKeepsGrid | src/Map/mapdata.cpp:375-478 | After any such interleaving the logical grid is the loaded one |
| Activation.PlayersReadCells | src/Map/gamemap.h:197-197 | A map with a player on it, and a generator in its turn, always find the loaded cells in memory, whatever the other maps and generators do |
| GameMaps.GameMap.EnterRoom | src/Map/gamemap.cpp:130-150 | The object's members, counter and data change as specified; its counter and reference invariant is kept |
| GameMaps.GameMap.LeaveRoom | src/Map/gamemap.cpp:152-172 | The same for leaving |
| GameMaps.GameMap.GetFloor | src/Map/gamemap.cpp:29-41 | While anyone uses the data, this map's players or a generator in its turn, the floor of every valid point is the loaded cell |
| GameMaps.GameMap.CheckStep | src/Entity/player.cpp:417-434 | The checks come to the specified verdict from wherever the player stands: refused off the map, on a blocked point or more than 210 up, and undefined where the source reads outside the cells in memory |
| GameMaps.GameMap.JudgeIsAccepts | src/Entity/player.cpp:417-434 | On data in use, from a point of the map, the verdict is never undefined and accepts exactly the steps onto a cell x + y * width that is accessible and not more than 210 above the one at the start |
| GameMaps.GameMap.CallsEndIff | src/Entity/player.cpp:412-469 | move and kickBack, which call each other, end if and only if the step or the step back is not refused, and then within two calls of move with the stated outcome |
| GameMaps.GameMap.KickBackEndsIff | src/Entity/player.cpp:412-469 | A refused step puts the player back on its previous point if and only if that point is accessible and not more than 210 above it; otherwise it never ends |
| GameMaps.GameMap.DropThenRefused | src/Entity/player.cpp:412-469 | A player that stepped down by more than 210 and whose next step is refused: no number of calls of move ends |
| ViewSets.UpdateIsExact | src/Map/gamemap.cpp:91-127 | Right after the update, the entity sees exactly the other members of its room within 18 cells, and is seen by exactly those |
| ViewSets.NearIff | src/Map/gamemap.h:118-119 | Two places are near exactly when both coordinates differ by at most 18 |
| ViewSets.UpdatedWithinEighteen | src/Map/gamemap.h:118-119 | After the update each other member of the room is seen, and sees, exactly when both coordinates differ by at most 18 |
| ViewSets.ClearIsComplete | src/Entity/entity.cpp:47-78 | Clearing empties the view set, takes the entity out of every other one, and changes nothing else |
| ViewSets.UpdateRepairs | src/Map/gamemap.cpp:91-127 | When only the entity's own place is out of date, the update restores mutual views and exactness for the whole world |
| ViewSets.EnterKeepsInv | src/Entity/player.cpp:325-358 | enterMap keeps the invariant, and on arrival the player sees exactly who is near |
| ViewSets.LeaveKeepsInv | src/Entity/player.cpp:360-373 | leaveMap keeps the invariant and leaves the player in no room |
| ViewSets.MoveKeepsInv | src/Entity/player.cpp:375-410 | A move to a map keeps the invariant and puts the player on the new map with an exact view |
| ViewSets.WalkKeepsInv | src/Entity/player.cpp:412-459 | An accepted step keeps the invariant and leaves the player with an exact view |
| ViewSets.EveryRun | src/Entity/player.cpp:325-459 | In every world of every run of logins, spawns, entries, exits, moves and steps: views are mutual, irreflexive, within one room and within 18 cells, and two players of one room see each other exactly when they are that near; EveryPair says when any two do |
| ViewSets.EveryPair | src/Entity/player.cpp:325-459 | In every world of every run, players and monsters alike: two members of one room see each other if and only if they are within 18 cells and one of them entered, stepped or came by teleport while the other existed |
| ViewSets.EveryPairWithinEighteen | src/Map/gamemap.cpp:91-127 | EveryPair with the coordinates written out: both differ by at most 18 |
| ViewSets.PlayersWithinEighteen | src/Map/gamemap.cpp:91-127 | In every world of every run two players of one room, with identifiers from 1,000,000 to 1,999,999,999, see each other exactly when both coordinates differ by at most 18 |
| ViewSets.MonsterSeenIff | src/generator.cpp:155-165 | A player sees a monster of its room if and only if it is within 18 cells and the player entered, stepped or came by teleport since the monster exists |
| ViewSets.OnlyTheActor | src/Entity/player.cpp:325-459 | An action concerns nobody but the one who acts: everyone else's place, room and views of each other stay the same |
| ViewSets.ActorEndsUp | src/Entity/player.cpp:325-459 | And the actor: where it is, and in which room, after each action |
| ViewSets.MonstersAppearUnseen | src/generator.cpp:155-165 | At the moment it appears a monster is in its room, seen by nobody and seeing nobody; EveryPair says what follows |
| Broadcast.AllMetStep | src/Map/gamemap.cpp:99-123 | One turn of the loop adds or removes the pair on both sides and touches no other view set |
| Broadcast.Entity.AddEntityToBCSet | src/Entity/entity.cpp:80-100 | An entity is added under its identifier unless it is there |
| Broadcast.Entity.RemoveEntityFromBCSet | src/Entity/entity.cpp:102-126 | An entity is removed if it is there |
| Broadcast.Crowd.ClearBroadcastSet | src/Entity/entity.cpp:47-78 | The loop that empties the view set terminates, and its effect on all view sets is the specified one |
| Broadcast.Crowd.CompareAll | src/Map/gamemap.cpp:91-127 | The loop over the members, in any order, leaves every view set as specified |
| GameWorld.AllMetIsUpdate | src/Map/gamemap.cpp:91-127 | Comparing an entity with all members of its room is the update of the view sets |
| GameWorld.World.UpdateBroadcastSet | src/Entity/entity.cpp:30-45 | The objects follow the specified update; nothing happens without a map or for an entity that is not on it |
| GameWorld.World.EnterMap | src/Entity/player.cpp:325-358 | On the objects, enterMap is the specified operation and keeps the invariant of the world, every map and all shared data |
| GameWorld.World.Leave | src/Entity/player.cpp:360-373 | The same for leaveMap |
| GameWorld.World.MoveTo | src/Entity/player.cpp:375-410 | The same for a move to a map; the place left is remembered, and nothing changes when there is no such map |
| GameWorld.World.Walk | src/Entity/player.cpp:412-469 | It returns true exactly for an accepted step; an accepted step is the specified walk, a refused one the walk back to the previous coordinates where that is accepted, and any other changes nothing |
| GameWorld.World.JudgedOnTheMap | src/Entity/player.cpp:417-434 | For a player on its map, at one of its points, the verdict is never undefined and accepts exactly the steps it should |
| GameWorld.World.Spawn | src/generator.cpp:155-165 | A spawned monster enters its map as specified |
| MapLoading.GroupWork | src/Map/mapmanager.cpp:95-136 | Each file gets exactly the map ids listed for it, in order; the duplicate test looks only at maps loaded before, so on an empty table it never fires |
| MapLoading.IdsInOrder | src/Map/mapmanager.cpp:95-136 | The ids of a file are those of the sections that name it, in their order, cut to sixteen bits |
| MapWorkers.EveryRun | src/Map/mapmanager.cpp:162-249 | With any number of workers in any interleaving: each file is not taken, finished, or with the one worker that took it, and the tables are those of the published files, each published once |
| MapWorkers.CompletePublishesAll | src/Map/mapmanager.cpp:162-249 | When all workers end without an error, every file is finished and exactly the loadable ones are published |
| MapWorkers.CompleteHasNoFatal | src/Map/mapmanager.cpp:196-249 | With a file whose loading fails fatally no run is complete: the worker that took it ended with the error |
| MapWorkers.SomeRunCompletes | src/Map/mapmanager.cpp:162-249 | Where no file fails fatally some run is complete, with any number of workers |
| MapWorkers.OrderDoesNotMatter | src/Map/mapmanager.cpp:211-226 | Without a shared map id, the tables do not depend on the order of publication |
| MapWorkers.ParallelIsSequential | src/Map/mapmanager.cpp:162-249 | Then any complete run fills the tables exactly as sequential loading does |
| MapWorkers.IdsHaveTheirFile | src/Map/mapmanager.cpp:211-226 | A map id has data exactly when a loadable file lists it, and then the data of such a file |
| MapWorkers.OneWorkerIsSequential | src/Map/mapmanager.cpp:162-249 | A single worker is sequential whatever the files share |
| MapWorkers.SharingDiverges | src/Map/mapmanager.cpp:162-249 | With two workers and a map id listed for two loadable files, a given interleaving ends well and fills the tables differently |
| MapWorkers.ParallelIsSequentialIff | src/Map/mapmanager.cpp:138-249 | All complete runs are sequential if and only if there is one worker, no map id is shared, or a file fails fatally so that no run is complete |
| MapWorkers.SharingIsInTheList | src/Map/mapmanager.cpp:95-136 | Sharing can be read off the map list: two sections that give different loadable files to one map id |
| MapWorkers.PublishIds | src/Map/mapmanager.cpp:213-223 | The loop under the data mutex maps each id of the file, and no other, to its data |
| Spawning.EachSquareOnce | src/generator.cpp:97-109 | From any start the constructor may draw, as many grid calls as there are squares visit each square once and only once |
| Spawning.GridIsFull | src/generator.cpp:74-80 | On both axes the squares of the grid fit into the extent and one more would not; without a side there is one square |
| Spawning.FarIs | src/generator.cpp:74-109 | The largest offsets are those of the columns and rows that fit into the extents, when there is more than one square, and the extents otherwise |
| Spawning.DrawsStayInsideIff | src/generator.cpp:90-109 | The draw of findGenPos, from the generator's fields alone: every position it may draw lies between the bounds and the bounds plus the extents if and only if bound plus largest offset is at most 65,535 on both axes |
| Spawning.SomeDrawLeaves | src/generator.cpp:90-96 | A generator at 65,500 with an extent of 100 may draw the coordinate 0 |
| Spawning.MonstersStayInsideIff | src/generator.cpp:143-153 | The place of a monster, which the second draw takes from the whole extents: every place it may get lies within the bounds if and only if bound plus extent is at most 65,535 on both axes |
| Spawning.SecondDrawLeaves | src/generator.cpp:143-153 | The two conditions differ: a generator at 65,400 with an extent of 139 and squares of 40 draws within its bounds first and may put a monster at the coordinate 3 |
| Spawning.LooksStayInsideIff | src/generator.cpp:143-153 | generate never looks outside the map's cells, at x + y * width, whatever it draws, if and only if the largest position of a first draw has a cell and, when a first draw may fall where nobody can stand, so has the largest position of the bounds, both cut at 65,535 |
| Spawning.Generator.constructor | src/generator.cpp:60-83 | The number of squares is the columns times the rows of that side that fit into the extents, no more and no fewer, and at least one; the start index is at most it |
| Spawning.Generator.FindGenPos | src/generator.cpp:85-110 | The position is the bound plus an offset of the next square, or within the extent without a grid, and lies within the bounds under the condition of DrawsStayInsideIff |
| Spawning.Generator.Generate | src/generator.cpp:112-178 | Each monster made stands on an accessible cell within reach of the draws; the call ends early only where it looks outside the cells, at a position it may look at; the number of monsters is bounded by the request and the quota, and reaches the smaller of them wherever every first draw can be stood on; a call that generates anything leaves the total at most mMaxNPC - 1 + min(request, mMaxPerGen) |
| Spawning.TotalBounded | src/generator.cpp:122-123 | If no generator has passed its limit, all of them together have not passed the sum of the limits; Sweeps keeps the hypothesis |
| Spawning.Sweep | src/world.cpp:354-376 | A sweep spawns 20 minus what is left of its budget, which is never negative; when nothing is left the generator at the returned index, where the next sweep starts, has grown and those behind it have not; a sweep with budget left returns another index only when it is stopped there; generators before its start keep their amounts |
| Spawning.Sweeps | src/world.cpp:334-390 | However many sweeps there are, no generator passes mMaxNPC - 1 + min(20, mMaxPerGen), and all of them spawn a bounded number of monsters |
| MonsterUids.GenerateKeepsPartition | src/world.cpp:272-308 | A new identifier is from 400,001 to 499,999 and not live, and live and recycled identifiers stay a duplicate-free partition of the issued ones |
| MonsterUids.RecycleKeepsPartition | src/world.cpp:310-318 | So they do when a live identifier comes back |
| MonsterUids.ExhaustedIffAllLive | src/world.cpp:284-302 | No identifier is left if and only if all 99,999 belong to live monsters |
| MonsterUids.EveryRun | src/world.cpp:272-318 | The partition holds in every state of every run |
| MonsterUids.BornOnceWhileLive | src/world.cpp:272-318 | Between two births of one identifier lies its recycling |
| MonsterUids.ReissuedInOrder | src/world.cpp:288-295 | Recycled identifiers are handed out again in the order they came back |
| MonsterUids.Allocator.GenerateMonster | src/world.cpp:272-308 | The object hands out the specified identifier; it has none only when all 99,999 are live |
| MonsterUids.Allocator.RecycleMonsterUID | src/world.cpp:310-318 | The object queues the identifier behind those recycled before |
| StringPacker.EncodedAt | src/Network/stringpacker.cpp:25-41 | Where each string is in the buffer, with its length byte in front |
| StringPacker.DecodedIffHeld | src/Network/stringpacker.cpp:12-71 | Reading is the inverse of writing: a buffer holds a list of strings, of any bytes, if and only if walking it by the length bytes decodes that list |
| StringPacker.OnlyTheLatestRemain | src/Network/stringpacker.cpp:25-41 | After any number of additions exactly those since the count last wrapped at 256 can be read: all of them if and only if there are at most 255 |
| StringPacker.Packer.AddString | src/Network/stringpacker.cpp:25-41 | The string is added behind the others, which survive; nothing is written beyond 2 plus the sum of the lengths plus one each |
| StringPacker.Packer.GetString | src/Network/stringpacker.cpp:43-71 | On any buffer it is the walk by the length bytes, undefined exactly where that reads outside the buffer; on a buffer that holds strings it succeeds exactly for an index below the count and an output longer than the string, and then writes the string, a zero and nothing else |
| Logger.StepKeepsInv | src/Common/log.cpp:157-248 | Each step of each thread keeps the queue equation, the mutex discipline and the absence of lost wake-ups |
| Logger.EveryRun | src/Common/log.cpp:157-248 | In every state of every run with any number of producers: the enqueued entries are the written ones, then the swapped-out ones, then the queued ones |
| Logger.EveryEntryArrives | src/Common/log.cpp:157-248 | In every state of every run the entries producers came with, in the order they got the mutex, are the written, swapped-out and queued ones and the one still in a producer's hands |
| Logger.LeavesWithNothingPending | src/Common/log.cpp:179-203 | The writing thread leaves its loop only after the shutdown flag, with every entry written |
| Logger.AwakeAfterShutdown | src/Common/log.cpp:106-119 | After the destructor's wake-up the writing thread is never asleep, although the flag is set outside the mutex |
| Logger.ShutdownNeverStuck | src/Common/log.cpp:107-119 | From then on whoever holds the mutex, the writing thread or the join can always go on |
| Logger.ShutdownEnds | src/Common/log.cpp:107-248 | Without new entries the writing thread takes no more than a fixed number of steps after the flag |

## Left out

- Sockets, Qt signals, the database, the Lua binding, INI and binary file reading: foreign calls without local logic.
- LZ4 and the big-integer library: an arbitrary lossless pair of functions, and mathematical integers; printing is fixed to base 16, the only base in use, and reading is on hexadecimal text.
- The constants of the S-boxes and P-array and the line-by-line CAST5 sub-key table: parameters, so every theorem holds for all contents.
- The allocation of buffers and their sizes in C++: a fixed buffer is an array with its length, and a read or write outside it is excluded by the model.
- Big-endian hosts: words are read as on a little-endian host.
- Feedback.StreamRoundTrip: also allows empty calls, which the ciphers' debug assertions exclude; the round trip holds for them too.
- Cast5.Cipher.GenerateKey: the line-by-line sub-key table between the padding of the seed and the bias is the parameter `expand`.
- Blowfish.Cipher.GenerateKey: the documentation (src/Security/Cryptography/blowfish.h:47) says the positions of the vectors are reset; the code does not reset them, and the model follows the code.
- Rc5.ServerRoundTrip: the round trip of the server's own pair is false as written, because encrypt stops at j < ROUNDS while decrypt starts at ROUNDS; the exact condition is proved instead, and the round trip for equal round counts is Rc5.RoundTrip.
- src/Security/Cryptography/tqcipher.cpp: both of its calls apply the same direction, the inverse lives in the game client.
- SecureChannel.ReadResponse: responses on which the source reads outside the buffer or fails the assertion on the length, are one outcome, as are sizes and lengths on which the splitter would read outside, fail its assertion or not progress; the messages themselves and their processing are not modelled.
- The layout of the login proof message, a parameter of GenerateExchangeRequest, and the account servers.
- MapData: the product of width, height and three, and the index of a cell, are not cut to the width of an int; the compressed size is not bounded.
- MapData.UnpackAll: one step per map, as the invariant needs; UnpackAllWorksIff says what the two calls come to with others between them.
- The order of the locks on two entities' view sets, and messages sent while view sets change.
- GameWorld.World.Walk: where the source calls itself without end, or reads outside the cells, the world stays as it was at the call.
- Entities are never deleted from the world of GameWorld; leaving a map is.
- GameMaps.GameMap.CheckStep: where the source reads outside the cells in memory the verdict is Undefined, and the step is taken no further.
- MapWorkers: the objects of map data are told apart by their file; the memory of a failed worker's data is not modelled. Loading is a function of the path.
- MapWorkers.ParallelIsSequential: false without its condition when there are two workers; the exact condition is in ParallelIsSequentialIff.
- Spawning: the random number generator is its contract, a result between the two bounds; timers, the map's activity and its cells, which the generator unpacked before, are parameters; the monster made on success is in MonsterUids and GameWorld. The product of columns and rows is not cut to 32 bits.
- Spawning.Generator.FindGenPos: the position wraps at sixteen bits, so it lies within the bounds exactly under the condition of DrawsStayInsideIff; the place of a monster exactly under that of MonstersStayInsideIff.
- Spawning.Generator.Generate: where it looks outside the cells the call, and the sweep, are taken no further.
- The moment initial spawning is declared complete in regenerateMonsters, and the sleep between sweeps.
- MonsterUids: the counter and the queue are one atomic step, although the source locks only the queue; a monster type the database does not know takes no identifier.
- StringPacker.Packer.AddString: room in the buffer is a precondition, as the source checks none; it is stated for a buffer that holds strings. Reading is stated for any buffer.
- Logger: opening the file and failing writes; the running test before an entry is made; formatting.
- Money, points and equipment, floating-point prices, random rates and message fields.
