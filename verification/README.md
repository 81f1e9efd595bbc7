# OPDI verified model

A Dafny model of the Open Protocol for Device Interaction: the cipher of its encrypted links, the
wire format in both of its implementations, the handshake of slave and master, and the small
machinery below them. `dafny verify dfyconfig.toml` checks all of it.

What the source does step by step is written step by step here: loops over arrays, classes whose
methods change their fields. Each such method is proved against a function or a state machine, and
the properties of interest are lemmas about those.

## The modules

- **The cipher** (`Gf256`, `RijndaelTables`, `RijndaelCipher`, `RijndaelBlocks`, `BlockModes`,
  `Rijndael`; `RijndaelSteps` and the examples of the standard in `Aes128Example`, `Aes192Example` and
  `Aes256Example`). Arithmetic of GF(2^8); the folded tables by formula over the two
  substitution tables, which are shown to be what section 5.1.1 of FIPS 197 says; key expansion and
  rounds after sections 5.1, 5.2, 5.3 and 5.3.5 of FIPS 197 for all nine size pairs; the modes of
  NIST SP 800-38A (sections 6.1 to 6.3); and the class `CRijndael` with its sliding-window key
  schedule, table lookups, unrolled 16-byte path and chain. `DecryptionInverts`,
  `EquivalentInverse`, `EncryptRoundColumn`, `FillSchedule`, `RoundBytes`, `EncryptedByte` and
  `EncryptedMeetsEquations` are the main results.
- **Strings** (`Strings`, `StringsInPlace`). The tokenizer as a function, the split that overwrites
  its own input, the bounded join; when one undoes the other, exactly.
- **The slave's wire** (`Numbers`, `Frames`, `Wire`, `EncryptedWire`, `AesLink`, `OpdiAes`,
  `Messaging`).
  Frames and their checksum, what acceptance means, detection of single-byte errors, what repeated
  calls make of any stream (`StreamUnderstood`), that what is sent arrives (`SentIsReceived`), the
  same in enciphered blocks for every invertible cipher and every padding
  (`EncryptedSentIsReceived`), and the class of the messaging layer. Buffer and block sizes are
  parameters.
- **The master's wire** (`StringTools`, `MasterMessages`, `LineAssembler`). The second
  implementation of the same format, interoperation in both directions, and the assembly of lines
  from chunks.
- **The connection** (`Protocol`, `SlaveProtocol`, `SlaveAnswers`, `SlaveStart`, `MasterHandshake`,
  `MasterAnswers`, `HandshakeExample`). The slave as a state machine over the messages that arrive,
  with a log of what is observed; what holds in every run of it (`RunGood`, `ConnectedIsChecked`,
  `EndIsClean`, `RequestsAreHandled`); what each message is answered with and how each call ends; the
  code as it goes from check to check; the master's handshake, with what it sends and returns for
  every inbox (`SelectionIsSentIff`, `ProtocolIsReturnedIff`); and both together (`HandshakeAgrees`,
  `HandshakeSucceeds`, `AuthenticationSucceedsIff`).
- **Below** (`Int64`, `UartRings`, `Ports`). Printing and reading 64 bit numbers, the interrupt
  driven rings under any interleaving, the port list and the streaming port bindings.

## Where the code is not what one would expect

Each of these is a lemma with the exact condition or with an input.

- `decode` does not stop at the NUL of a line that ends before any separator. A number of one or two
  bytes alone on a line is taken together with what an earlier line has left in the buffer, and a
  payload that neither line carries is delivered (`LeftoverIsReceived`). These are exactly the lines
  for which it matters what else the buffer holds (`NothingElseMattersIff`, `UnderstoodAnywhereIff`).
- `encode` takes channels of three digits and payloads one byte longer than the receiver takes;
  `decode` accepts neither (`LineAcceptedIff`, `FrameUnderstoodIff`).
- A frame that fits the buffer but reaches its size with the padding of its last block is sent and
  never received (`PaddedArrivesIff`). With 48 byte buffers and 16 byte blocks these are all frames
  of 33 bytes or more.
- With trim, `strings_split` of a text that starts with a lone separator loses the first byte of the
  second part, and so all of it (`SplitIsTokenizerIff`, `LetterBehindSeparatorLost`).
- A part that starts with the separator is ambiguous on the wire: what it starts with is read as the
  end of the part before. Towards the slave that concerns the parts after the first
  (`SplitOfJoinIff`, `TrimmingSplitOfJoinIff`, `MasterToSlave`); towards the master the first part as
  well, for the master splits the line together with its channel (`SlaveToMaster`,
  `SeparatorRunsIntoChannel`).
- The master drops a whole part for a leading blank, where its comment speaks of the blank only
  (`RemoveLeadingBlank`, `SlaveToMaster`).
- The master compares the checksum without cutting its own sum to 16 bits; it refuses frames whose
  bytes sum to 65536 or more, which takes buffers of more than 256 bytes (`SlaveToMaster`,
  `SmallBufferSumsAgree`).
- The slave asks for the master's prohibition of encryption only where the device requires it
  (`MasterProhibitionKeptIff`), and takes the empty list of a master that encrypts nothing for the
  offer of a method with an empty name (`EmptyMethodEncryptsIff`).
- The master's join doubles a leading blank and sends an empty text as two, and the slave does not
  trim the credentials: " bob" arrives as "  bob" (`CredentialsArriveIff`).
- A port that is added a second time cuts off all ports behind it (`AddPort`).
- The master's exception for rejected credentials is never raised, and the password it would clear
  is kept (`RejectionIsNotRecognised`).

## Model

| member | source | states |
|---|---|---|
| Gf256.XtimeLinear | code/c/common/opdi_rijndael.h:48-51 | doubling in GF(2^8) distributes over exclusive-or |
| Gf256.InvRowOfRows | code/c/common/opdi_rijndael.cpp:634-904 | a row of the inverse mixing matrix undoes the four rows of the mixing matrix, for all bytes |
| Gf256.InvMixColumnInverts | code/c/common/opdi_rijndael.cpp:1035-1043 | InvMixColumn undoes MixColumn on every column |
| Gf256.InvMixColumnLinear | code/c/common/opdi_rijndael.cpp:1035-1043 | InvMixColumn distributes over adding a key word, the reason why decryption may use mixed round keys |
| RijndaelTables.SiInvertsS | code/c/common/opdi_rijndael.cpp:50-88 | the table sm_Si undoes the table sm_S on all 256 bytes |
| RijndaelTables.SubstitutesInverse | code/c/common/opdi_rijndael.cpp:50-68 | every entry of sm_S is the affine transform of the multiplicative inverse of its index, section 5.1.1 of FIPS 197 |
| RijndaelTables.TimesAreProducts | code/c/common/opdi_rijndael.h:53-64 | the factors of the folded tables are products in GF(2^8) with 2, 3, 9, 11, 13 and 14 |
| RijndaelTables.EncryptLookup | code/c/common/opdi_rijndael.cpp:1074-1097 | four lookups in T1 to T4, summed, are SubBytes followed by MixColumns on a column |
| RijndaelTables.DecryptLookup | code/c/common/opdi_rijndael.cpp:1148-1171 | four lookups in T5 to T8, summed, are InvMixColumns of the inversely substituted column |
| RijndaelTables.InverseMixLookup | code/c/common/opdi_rijndael.cpp:1035-1043 | four lookups in U1 to U4, summed, are InvMixColumns |
| RijndaelCipher.RconDoubles | code/c/common/opdi_rijndael.cpp:906-914 | each of the 30 round constants is twice the one before in GF(2^8), section 5.2 of FIPS 197 |
| RijndaelCipher.RoundsAreSixMoreThanTheLonger | code/c/common/opdi_rijndael.cpp:957-970 | for all nine size pairs the number of rounds is six more than the longer of key and block in words |
| RijndaelCipher.ScheduleFits | code/c/common/opdi_rijndael.cpp:983-1033 | no size pair needs more words than the round constants last for, so sm_rcon is never read at index 30 or beyond |
| RijndaelCipher.KeyWordStep | code/c/common/opdi_rijndael.cpp:1003-1033 | one turn of the sliding window, column by column, is the word recurrence of section 5.2 of FIPS 197, with the extra SubWord for eight words |
| RijndaelCipher.ShiftsCancel | code/c/common/opdi_rijndael.cpp:915-920 | the two columns of sm_shifts cancel modulo the number of columns, for all block sizes and rows |
| RijndaelCipher.InvShiftRowsInverts | code/c/common/opdi_rijndael.cpp:915-920 | shifting the rows back undoes shifting them, for 4, 6 and 8 columns |
| RijndaelCipher.EquivalentInverse | code/c/common/opdi_rijndael.cpp:1035-1043 | the equivalent inverse cipher with mixed round keys (section 5.3.5 of FIPS 197) computes what the straight inverse cipher does |
| RijndaelCipher.InvStateRetraces | code/c/common/opdi_rijndael.cpp:1249-1294 | round by round, decryption walks back through the states of encryption |
| RijndaelCipher.DecryptionInverts | code/c/common/opdi_rijndael.cpp:1199-1294 | decryption undoes encryption on every state, for every key and all nine size pairs |
| RijndaelCipher.RowOffsets | code/c/common/opdi_rijndael.cpp:915-920 | rows 1 to 3 are shifted by 1, 2, 3 columns for blocks of 16 and 24 bytes and by 1, 3, 4 for those of 32, and by the complement backwards |
| Aes128Example.Example | code/c/common/opdi_rijndael.cpp:1051-1194 | the example of appendix B of FIPS 197, to the end and in bytes: key 2b7e1516 28aed2a6 abf71588 09cf4f3c makes of 3243f6a8 885a308d 313198a2 e0370734 the block 3925841d 02dc09fb dc118597 196a0b32, and back |
| Aes192Example.Example | code/c/common/opdi_rijndael.cpp:1051-1194 | the example of appendix C.2 of FIPS 197, with a key of 24 bytes, to the end and in bytes |
| Aes256Example.Example | code/c/common/opdi_rijndael.cpp:1051-1194 | the example of appendix C.3 of FIPS 197, with a key of 32 bytes, to the end and in bytes |
| RijndaelBlocks.BlockRoundTrip | code/c/common/opdi_rijndael.cpp:1199-1294 | on bytes: decrypting an encrypted block gives the block back, for every key and all nine size pairs |
| RijndaelBlocks.StartByte | code/c/common/opdi_rijndael.cpp:1205-1212 | for all nine size pairs: a byte of the first state is the byte of the block plus a byte of the key |
| RijndaelBlocks.RoundBytes | code/c/common/opdi_rijndael.cpp:1214-1233 | for all nine size pairs: the four bytes of a column after a round are the matrix 2 3 1 1 of section 5.1.3 of FIPS 197 times four substituted bytes, each from its shifted row, plus key bytes |
| RijndaelBlocks.EncryptedByte | code/c/common/opdi_rijndael.cpp:1235-1244 | for all nine size pairs: a byte of the encrypted block is the substituted byte of its shifted row of the state before the last round, plus a byte of the last key |
| RijndaelBlocks.EncryptRoundColumn | code/c/common/opdi_rijndael.cpp:1224-1233 | a column of a round done by lookups is that column of SubBytes, ShiftRows, MixColumns, AddRoundKey done one after the other |
| RijndaelBlocks.DecryptRoundColumn | code/c/common/opdi_rijndael.cpp:1274-1283 | the same for a decryption round and the inverse transformations |
| RijndaelBlocks.EncryptLastColumn | code/c/common/opdi_rijndael.cpp:1235-1244 | the bytes the last encryption round writes are the bytes of the final state |
| RijndaelBlocks.DecryptLastColumn | code/c/common/opdi_rijndael.cpp:1285-1294 | the bytes the last decryption round writes are the bytes of the final state |
| RijndaelBlocks.UnrolledEncryptRound | code/c/common/opdi_rijndael.cpp:1074-1097 | the hand-unrolled round for 16 bytes is the general round at four columns |
| RijndaelBlocks.UnrolledEncryptLast | code/c/common/opdi_rijndael.cpp:1098-1120 | so is its unrolled last round |
| RijndaelBlocks.UnrolledDecryptRound | code/c/common/opdi_rijndael.cpp:1148-1171 | the same for decryption |
| RijndaelBlocks.UnrolledDecryptLast | code/c/common/opdi_rijndael.cpp:1172-1194 | and for the last decryption round |
| Rijndael.CRijndael.constructor | code/c/common/opdi_rijndael.cpp:930-933 | a new object has no key |
| Rijndael.CRijndael.MakeKey | code/c/common/opdi_rijndael.cpp:944-1045 | legal sizes fill both schedules for the key and reset the chain, illegal ones throw in the order of the checks and change nothing else |
| Rijndael.CRijndael.FillSchedule | code/c/common/opdi_rijndael.cpp:983-1033 | the in-place sliding window fills exactly (rounds + 1) * columns words of the key expansion, forwards and in reverse |
| Rijndael.CRijndael.InverseMix | code/c/common/opdi_rijndael.cpp:1035-1043 | the decryption schedule becomes the reversed encryption schedule with InvMixColumns on all rows but the outer two |
| Rijndael.CRijndael.DefEncryptBlock | code/c/common/opdi_rijndael.cpp:1051-1120 | the unrolled path writes the encrypted block, in place of sixteen bytes and nothing else |
| Rijndael.CRijndael.EncryptBlock | code/c/common/opdi_rijndael.cpp:1199-1244 | writes the block encrypted under the key, by either path, or throws without a key |
| Rijndael.CRijndael.DefDecryptBlock | code/c/common/opdi_rijndael.cpp:1126-1194 | the unrolled path writes the decrypted block |
| Rijndael.CRijndael.DecryptBlock | code/c/common/opdi_rijndael.cpp:1249-1294 | writes the block decrypted under the key, by either path, or throws without a key |
| Rijndael.CRijndael.ResetChain | code/c/common/opdi_rijndael.h:140-143 | the chain is what it was after MakeKey |
| Rijndael.CRijndael.Encrypt | code/c/common/opdi_rijndael.cpp:1296-1337 | whole blocks are encrypted in ECB, CBC or CFB from the object's chain, which is left where the mode leaves it; a partial block throws and changes nothing |
| Rijndael.CRijndael.Decrypt | code/c/common/opdi_rijndael.cpp:1339-1381 | the same for decryption |
| BlockModes.ModeRoundTrip | code/c/common/opdi_rijndael.cpp:1296-1381 | in every mode, decryption from the chain encryption started with gives all blocks back and ends on the same chain |
| BlockModes.EncryptedMeetsEquations | code/c/common/opdi_rijndael.cpp:1296-1337 | every block put out meets the equation of its mode with the block before it, byte by byte, and the chain left is the last block, or in ECB the one there was |
| BlockModes.EncryptStepEquation | code/c/common/opdi_rijndael.cpp:1296-1337 | in CBC the block encrypted is the exclusive-or of the block before and the plaintext; in CFB the encrypted block before is added to it; otherwise the plaintext is encrypted as it is |
| BlockModes.DecryptStepEquation | code/c/common/opdi_rijndael.cpp:1339-1381 | decryption gives the block that meets the equation of CBC or CFB, or in ECB the decrypted block |
| BlockModes.DecryptedMeetsEquations | code/c/common/opdi_rijndael.cpp:1339-1381 | in decryption a block depends on its ciphertext block and, in CBC and CFB, the one before, and on nothing else |
| BlockModes.ErrorsDoNotSpread | code/c/common/opdi_rijndael.cpp:1339-1381 | where two ciphertexts agree in a block and the one before it, so do the plaintexts |
| BlockModes.EncryptedInParts | code/c/common/opdi_rijndael.cpp:1296-1337 | a message encrypted in two calls comes out as in one |
| BlockModes.DecryptedInParts | code/c/common/opdi_rijndael.cpp:1339-1381 | a message decrypted in two calls comes out as in one |
| Strings.ScanIsTrimmedParts | code/c/common/opdi_strings.c:23-66 | dropping whitespace while a part is empty is the left trim of the greedily unescaped parts |
| Strings.LoopTokensAreTokens | code/c/common/opdi_strings.c:23-87 | one scan and one pass of right trims compute the declarative tokenizer: greedy pairs, all parts trimmed left, all but the last trimmed right |
| Strings.SplitIsTokenizerIff | code/c/common/opdi_strings.c:66-80 | the in-place split is that tokenizer exactly when trimming does not meet a lone separator at the start with, behind it, text that does not start with a lone separator itself |
| Strings.LetterBehindSeparatorLost | code/c/common/opdi_strings.c:66-80 | the text :x is one for which they differ: the second part is lost |
| Strings.PartsOfJoinAtMost | code/c/common/opdi_strings.c:23-122 | a join never splits into more parts than it was made from, whatever they hold |
| Strings.PartsOfTwo | code/c/common/opdi_strings.c:29-66 | a separator with no other one beside it always ends a part: the parts of the whole are the parts of both sides |
| Strings.PartsOfJoin | code/c/common/opdi_strings.c:90-122 | the tokenizer takes any join apart if no later part is empty or starts with the separator |
| Strings.SplitOfJoinIff | code/c/common/opdi_strings.c:23-122 | without trim, split of join gives the parts back (a blank for an empty one) exactly when no later part starts with the separator |
| Strings.TrimmingSplitOfJoinIff | code/c/common/opdi_strings.c:23-122 | with trim, split of join gives the very parts back exactly when, besides, none has whitespace to lose |
| Strings.SplitResultOfJoin | code/c/common/opdi_strings.c:23-122 | on a join the in-place split is always the tokenizer |
| StringsInPlace.StringsSplit | code/c/common/opdi_strings.c:23-87 | the split, overwriting its own input, leaves exactly the parts of SplitResult behind the pointers, null pointers behind them, and fails exactly when there are too many |
| StringsInPlace.StringsJoin | code/c/common/opdi_strings.c:90-122 | the bounded join leaves the join in dest and fails exactly when it is longer than maxLength - 2 |
| Numbers.StoiOfDecimal | code/c/common/master/opdi_AbstractProtocol.cpp:45-59 | stoi reads a number up to the first byte that is no digit |
| Numbers.DecimalIsRead | code/c/platforms/avr/opdi_platformfuncs.c:238-241 | the decimal digits of a number read back as that number |
| Numbers.NumberOfSigned | code/c/platforms/avr/opdi_platformfuncs.c:216-231 | every integer comes back from its decimal text |
| Numbers.NumberOfText | code/c/platforms/avr/opdi_platformfuncs.c:182-231 | whitespace, a sign or none and digits to the end are read as the number |
| Numbers.NumberIsText | code/c/platforms/avr/opdi_platformfuncs.c:182-231 | and nothing else is read as one |
| Numbers.StoiOfText | code/c/common/master/opdi_AbstractProtocol.cpp:45-59 | stoi reads whitespace, sign and digits up to the first byte that is no digit, and refuses what does not fit 32 bits |
| Numbers.StrToUint16OfDecimal | code/c/platforms/avr/opdi_platformfuncs.c:182-197 | a channel number comes back from its decimal text |
| Numbers.Hex4RoundTrip | code/c/common/opdi_message.c:200-209 | the four checksum digits give the checksum back and hold no separator, NUL or terminator |
| Frames.DecodesIff | code/c/common/opdi_message.c:77-143 | a buffer that holds a line with a separator among its first three bytes decodes to a message exactly when the line is channel, payload and the right four digits, whatever stands behind its NUL |
| Frames.TooLongIff | code/c/common/opdi_message.c:136-141 | the length of the payload is looked at last: a line is refused for it exactly if it is a message for a receiver with more room |
| Frames.LineExample | code/c/common/opdi_message.c:148-216 | a frame in bytes: channel 12 and payload no make 12:no:017a |
| Frames.LineAcceptedIff | code/c/common/opdi_message.c:77-216 | a frame is accepted as the message it was made from exactly for channels below 100 and payloads neither empty nor too long |
| Frames.WideChannelRejected | code/c/common/opdi_message.c:88-94 | a frame for a channel of three or more digits is never decoded |
| Frames.SingleByteErrorDetected | code/c/common/opdi_message.c:58-143 | replacing one byte of an accepted line leaves a line that is rejected, or changes the case of a checksum digit and means the same |
| Wire.MeaningIffAccepted | code/c/common/opdi_message.c:77-143 | the meaning of a line is the one message it is accepted as |
| Wire.DecodeIsMeaning | code/c/common/opdi_message.c:77-143 | decode of a buffer gives the meaning of the line in it, for all lines but those of one or two bytes that are a number without separator |
| Wire.NothingElseMattersIff | code/c/common/opdi_message.c:88-121 | those are exactly the lines for which it does not: decode of a buffer with a given line depends on nothing else in the buffer if and only if the line is not such a number |
| Wire.LeftoverIsReceived | code/c/common/opdi_message.c:356-395 | for every such number there is a line that is rejected and, with the number on the next line, makes the receiver deliver a payload that neither line carries, in buffers of every size |
| Wire.UnderstoodAnywhereIff | code/c/common/opdi_message.c:356-395 | behind every stream of other lines, and whatever the buffers hold, a line is understood as it means if and only if it is not such a number |
| Wire.LineReceived | code/c/common/opdi_message.c:356-395 | a line that arrives is understood by what an overflow and the first NUL leave of it, and the old contents of the buffer do not matter |
| Wire.PositionIsRemainder | code/c/common/opdi_message.c:386-391 | every time the buffer is full but for the NUL it is emptied: what is left of a line is the remainder |
| Wire.ReceiveGetsFirst | code/c/common/opdi_message.c:356-395 | one call gets the first message of any stream without such lines and leaves the stream behind it |
| Wire.StreamUnderstood | code/c/common/opdi_message.c:356-395 | repeated calls get exactly the meanings of the lines of a stream without such lines, in order, through noise, overlong lines and stale buffers |
| Wire.EncodeOkIff | code/c/common/opdi_message.c:148-216 | encode succeeds exactly for payloads without terminator whose frame is shorter than the buffer |
| Wire.EncodeRefusals | code/c/common/opdi_message.c:148-216 | which status encode returns: for a payload longer than the room behind the channel, else a terminator among the bytes it gets to see, else a frame that does not fit |
| Wire.FrameUnderstoodIff | code/c/common/opdi_message.c:77-216 | an encoded frame is heard as its message exactly when the channel is below 100 and the payload neither empty nor longer than the receiver takes |
| Wire.FramesUnderstood | code/c/common/opdi_message.c:148-216 | the frames of any list of sendable messages are understood as that list, whatever follows |
| Wire.SentIsReceived | code/c/common/opdi_message.c:148-395 | messages sent one after the other are received unchanged and in order, whatever the buffers hold |
| Wire.NoiseIsSkipped | code/c/common/opdi_message.c:372-392 | noise up to a terminator costs no message behind it |
| Wire.JoinFitsFrame | code/c/common/opdi_strings.c:90-122 | what the join accepts for the payload buffer is encodable on channels 0 to 99, fits every receiver and never overflows it |
| Wire.PartsOverTheWire | code/c/common/opdi_message.c:77-395 | from parts to parts: join, encode, receive and split give the parts back under the exact conditions of the join |
| EncryptedWire.BlockArrives | code/c/common/opdi_message.c:252-299 | a whole block that fits is deciphered behind the ones before it |
| EncryptedWire.EncryptedLineReceived | code/c/common/opdi_message.c:231-301 | a padded line shorter than the buffer is understood as on a plain link, its padding is gone and the next byte starts a block |
| EncryptedWire.PaddedArrivesIff | code/c/common/opdi_message.c:231-352 | a message is received exactly when it is shorter than the buffer with its padding, which the sender does not look at |
| EncryptedWire.EncryptedSentIsReceived | code/c/common/opdi_message.c:231-352 | for every invertible block cipher and every terminator-free padding, messages arrive in order and unchanged and what follows is still aligned |
| AesLink.BitsRoundTrip | code/c/common/opdi_aes.cpp:34-57 | bytes come back from their bit patterns |
| AesLink.AesInverts | code/c/common/opdi_aes.cpp:34-57 | the Rijndael block functions with a key as long as a block are such a cipher |
| AesLink.AesSentIsReceived | code/c/common/opdi_aes.cpp:19-57 | so messages over the AES link arrive in order and unchanged, for every key |
| OpdiAes.AesFunctions.GetRijndael | code/c/common/opdi_aes.cpp:21-31 | the cipher object is made once, with the configured key; a key that is not as long as a block throws |
| OpdiAes.AesFunctions.EncryptBlock | code/c/common/opdi_aes.cpp:34-44 | writes the block enciphered under the configured key, the one the link's messages are sent in, exactly if key and block length are usable, and else fails and writes nothing |
| OpdiAes.AesFunctions.DecryptBlock | code/c/common/opdi_aes.cpp:46-57 | the same for deciphering |
| Messaging.Messaging.constructor | code/c/common/opdi_message.c:218-227 | encryption is off |
| Messaging.Messaging.CompareChecksum | code/c/common/opdi_message.c:58-72 | OK exactly when the four digits give the checksum, a conversion error exactly when they are no digits |
| Messaging.Messaging.CompareLine | code/c/common/opdi_message.c:120-135 | a line passes exactly when it has a separator and the right checksum at its end; for four bytes it never does, whatever stands in front of the buffer |
| Messaging.Messaging.Decode | code/c/common/opdi_message.c:77-143 | decode on the array is the decode function, and on success the payload buffer holds payload and NUL |
| Messaging.Messaging.PayloadChecksum | code/c/common/opdi_message.c:184-193 | finds a terminator in the bytes it looks at, or the overflow, and else has the checksum |
| Messaging.Messaging.WriteChecksum | code/c/common/opdi_message.c:195-212 | appends separator, four digits and terminator, or reports the overflow |
| Messaging.Messaging.Encode | code/c/common/opdi_message.c:148-216 | the status is the one of EncodeStatus, and on success the buffer begins with the frame |
| Messaging.Messaging.GetMessage | code/c/common/opdi_message.c:356-395 | the outcome is the one of Receive or ReceiveBlocks for whatever the buffer held, and the rest of the stream is left; or a block could not be deciphered, and that status is returned |
| Messaging.Messaging.GetPlain | code/c/common/opdi_message.c:371-393 | the receive loop on its own buffer computes Receive |
| Messaging.Messaging.GetEncrypted | code/c/common/opdi_message.c:231-301 | the block loop on the message buffer computes ReceiveBlocks, unless a block cannot be deciphered |
| Messaging.Messaging.PutMessage | code/c/common/opdi_message.c:397-426 | a failing encode sends nothing; else the frame goes out plain, or padded and enciphered |
| Messaging.Messaging.PutEncrypted | code/c/common/opdi_message.c:303-352 | the message buffer goes out in whole blocks, filled up with bytes that are no terminators; success means that every block was enciphered and sent |
| StringTools.MasterJoinIsJoin | code/c/common/master/opdi_StringTools.cpp:73-97 | the master's join is the slave's join of parts with blanks put in front |
| StringTools.PartsAreSeparable | code/c/common/master/opdi_StringTools.cpp:36-62 | no part behind a single separator ever starts with the separator |
| StringTools.MasterSplitOfJoinIff | code/c/common/master/opdi_StringTools.cpp:20-97 | the master's split of its join gives the parts back exactly when none starts with a blank and no later one with the separator |
| StringTools.UntrimmedSplitOfMasterJoinIff | code/c/common/master/opdi_StringTools.cpp:73-97 | the slave's split without trim gives the master's parts with blanks in front exactly when no later one starts with the separator, and the very parts exactly when, besides, none is empty or starts with a blank |
| StringTools.SplitJoinSplit | code/c/common/master/opdi_StringTools.cpp:20-97 | splitting gives a normal form: join and split again lose nothing, for every separator but the blank |
| StringTools.Split | code/c/common/master/opdi_StringTools.cpp:36-62 | the loop computes the master's split |
| StringTools.JoinStrings | code/c/common/master/opdi_StringTools.cpp:73-97 | the loops compute the master's join of the strings between those skipped |
| MasterMessages.RejoinedPayloadSplits | code/c/common/master/opdi_OPDIMessage.cpp:83-85 | the payload that decode joins again splits into the inner parts of the line |
| MasterMessages.MasterDecodesIff | code/c/common/master/opdi_OPDIMessage.cpp:60-93 | a line is decoded exactly if it has three parts or more, the parser reads in the last one the unreduced sum of the bytes before the last separator, and in the first one a channel; the payload is the parts between |
| MasterMessages.WrongDigitsThrow | code/c/common/master/opdi_OPDIMessage.cpp:71-81 | four digits that are not the unreduced sum of what stands before their separator make decode throw |
| MasterMessages.MasterDetectsSingleByteError | code/c/common/master/opdi_OPDIMessage.cpp:71-81 | one byte of channel or payload of any frame replaced, neither byte being the separator: decode throws |
| MasterMessages.LineIsJoin | code/c/common/master/opdi_OPDIMessage.cpp:60-93 | a frame is itself a join of channel, parts and checksum |
| MasterMessages.SlaveToMaster | code/c/common/master/opdi_OPDIMessage.cpp:60-93 | the master takes a slave's frame and splits it into the parts sent exactly when the true byte sum is below 65536 and no part, the first one included, starts with a blank or the separator |
| MasterMessages.SeparableToMaster | code/c/common/master/opdi_OPDIMessage.cpp:60-93 | if no part starts with the separator it takes the frame exactly when that sum is below 65536 |
| MasterMessages.SeparatorRunsIntoChannel | code/c/common/master/opdi_OPDIMessage.cpp:60-93 | a first part that starts with the separator is read as part of the channel number |
| MasterMessages.SmallBufferSumsAgree | code/c/configs/LinOPDI/opdi_configspecs.h:46 | with buffers of at most 256 bytes the true sum is always below 65536 |
| MasterMessages.MasterToSlave | code/c/common/master/opdi_OPDIMessage.cpp:95-122 | what the master joins and frames the slave hears and splits into the parts sent exactly when none has whitespace to lose and no later one starts with the separator |
| MasterMessages.MasterSendsFrames | code/c/common/master/opdi_OPDIMessage.cpp:95-122 | for channels that are not negative the master sends the slave's frames, byte for byte |
| MasterMessages.CalcChecksum | code/c/common/master/opdi_OPDIMessage.cpp:43-54 | the backwards loop sums the bytes before the last separator |
| MasterMessages.OPDIMessage.Decode | code/c/common/master/opdi_OPDIMessage.cpp:60-93 | decode returns or throws as MasterDecode says |
| MasterMessages.OPDIMessage.Encode | code/c/common/master/opdi_OPDIMessage.cpp:95-122 | throws exactly for a terminator; else the buffer holds as much of the frame as it takes and the checksum field the unreduced sum |
| LineAssembler.LinesConcat | code/c/common/master/opdi_MessageQueueDevice.cpp:48-106 | a stream cut in two has the lines of the first piece and those its rest forms with the second |
| LineAssembler.LinesIff | code/c/common/master/opdi_MessageQueueDevice.cpp:57-106 | lines and rest are the one way to cut a stream at its terminators, and nothing of it is lost |
| LineAssembler.MessageProcessor.ProcessChunk | code/c/common/master/opdi_MessageQueueDevice.cpp:57-106 | one turn decodes the complete lines of what was left and the chunk, and keeps the rest; an encrypted block gives at most one line and loses what follows it |
| LineAssembler.MessageProcessor.Run | code/c/common/master/opdi_MessageQueueDevice.cpp:48-106 | the lines that go to decode are those of the concatenated stream, however it was cut into chunks |
| LineAssembler.MessageProcessor.RunBlocks | code/c/common/master/opdi_MessageQueueDevice.cpp:48-106 | over deciphered blocks they are those of AfterBlocks |
| LineAssembler.FramesAssembled | code/c/common/master/opdi_MessageQueueDevice.cpp:48-106 | from the slave's frames the master gets their lines, one for one, and nothing is left |
| LineAssembler.PaddedFramesAssembled | code/c/common/master/opdi_MessageQueueDevice.cpp:90-104 | so it does from padded blocks, whatever the padding |
| Int64.SmallestIsPrinted | code/c/platforms/avr/opdi_platformfuncs.c:257-261 | the literal for the smallest number is its decimal text |
| Int64.Int64ToStr | code/c/platforms/avr/opdi_platformfuncs.c:248-303 | the buffer gets the decimal text of the number, a NUL behind it and nothing else, for all 64 bit numbers |
| Int64.PrintBackwards | code/c/platforms/avr/opdi_platformfuncs.c:271-278 | the digit loop writes the digits last one first |
| Int64.ReverseInPlace | code/c/platforms/avr/opdi_platformfuncs.c:290-295 | the exchange loop reverses its stretch of the buffer and nothing else |
| Int64.Strtoll | code/c/platforms/avr/opdi_platformfuncs.c:69-162 | in base 10, error -2 exactly without digits, error -1 exactly out of range, else the number; the end is behind the digits |
| Int64.AccumulateDigit | code/c/platforms/avr/opdi_platformfuncs.c:128-150 | the cutoff test is exact: a digit is taken exactly when the number stays within the limit of its sign |
| Int64.ParseInt64 | code/c/platforms/avr/opdi_platformfuncs.c:216-231 | fails exactly for texts that are no number of 64 bits |
| Int64.PrintedIsRead | code/c/platforms/avr/opdi_platformfuncs.c:216-303 | every number comes back from its text, -2^63 included |
| UartRings.MaskIsNext | code/c/configs/Chromashade/uart.c:49-58 | masking is the wrap-around of the index for all sizes that pass the test for a power of two, 256 included |
| UartRings.StoreKeepsContents | code/c/configs/Chromashade/uart.c:534-535 | the slot written behind the head is none that is still to be read |
| UartRings.StepKeepsGood | code/c/configs/Chromashade/uart.c:362-424 | every step of the main program and every interrupt keeps the invariant: first in, first out, nothing lost or doubled, and the interrupt enabled while unsent bytes wait |
| UartRings.RunIsGood | code/c/configs/Chromashade/uart.c:362-540 | so it holds after any interleaving |
| UartRings.FirstInFirstOut | code/c/configs/Chromashade/uart.c:362-540 | bytes sent are the first of those put, bytes delivered the first of those received, after any interleaving from the start |
| UartRings.WaitCanEnd | code/c/configs/Chromashade/uart.c:528-532 | whenever uart_putc waits there is room, or the interrupt that makes room is enabled and ends the wait |
| UartRings.ReceivedIff | code/c/configs/Chromashade/uart.c:392-400 | a byte that arrives is received exactly if fewer bytes than the ring has slots but one wait to be delivered; otherwise nothing happens at all |
| UartRings.AllReceived | code/c/configs/Chromashade/uart.c:362-402 | as long as there is room at each arrival, all bytes that arrive are received in order, whatever else happens in between |
| UartRings.BurstReceived | code/c/configs/Chromashade/uart.c:362-402 | a ring takes as many bytes in a row as it has slots left but one, without a read |
| UartRings.SentByInterrupt | code/c/configs/Chromashade/uart.c:405-424 | the transmit interrupt sends the oldest byte not yet sent, and turns itself off exactly if there is none |
| UartRings.GetDelivers | code/c/configs/Chromashade/uart.c:490-512 | uart_getc from call to return delivers the oldest byte not yet delivered, whatever interrupts come in between |
| UartRings.PutPublishes | code/c/configs/Chromashade/uart.c:520-540 | uart_putc from call to return, if there is room, publishes its byte behind all others and enables the interrupt, whatever interrupts come in between |
| UartRings.TransmitDrains | code/c/configs/Chromashade/uart.c:405-424 | no wakeup is lost: the interrupts alone bring out every byte published |
| UartRings.Uart.constructor | code/c/configs/Chromashade/uart.c:433-438 | empty rings, interrupt off |
| UartRings.Uart.TransmitRoutine | code/c/configs/Chromashade/uart.c:405-424 | sends the oldest byte, or turns itself off |
| UartRings.Uart.ReceiveRoutine | code/c/configs/Chromashade/uart.c:362-402 | stores the byte, or drops it if the ring is full |
| UartRings.Uart.MainStep | code/c/configs/Chromashade/uart.c:490-540 | one access of uart_putc or uart_getc to shared data |
| UartRings.Uart.Run | code/c/configs/Chromashade/uart.c:362-540 | any interleaving on the arrays is a run of the state machine and ends in a good state |
| UartRings.Uart.HasData | code/c/configs/Chromashade/uart.c:578-584 | true exactly when something received is not yet delivered |
| Ports.PortTable.AddPort | code/c/common/opdi_port.c:64-76 | appends a new port to the linked list, unless it is full; a port that is in the list already cuts off all ports behind it |
| Ports.PortTable.FindPortById | code/c/common/opdi_port.c:78-86 | the first port with that name, or none |
| Ports.PortTable.ClearPorts | code/c/common/opdi_port.c:42-54 | no ports, no bindings, all bound channels cleared |
| Ports.PortTable.BindPort | code/c/common/opdi_port.c:113-147 | adds a binding exactly for a streaming port, an unbound channel and room; a bound channel is fine exactly for the same port; channels stay distinct and the count within its bound |
| Ports.PortTable.UnbindPort | code/c/common/opdi_port.c:149-181 | takes out the port's first binding and clears its channel; all others stay in order |
| Ports.PortTable.TryDispatchStream | code/c/common/opdi_port.c:183-200 | finds the port bound to the channel, none exactly when there is none, and returns what its receiver returns |
| Ports.PortTable.ResetBindings | code/c/common/opdi_port.c:202-214 | no bindings, and every port that was bound has channel 0 |
| Ports.WithoutKeepsOrder | code/c/common/opdi_port.c:174-178 | taking one binding out keeps the others and the channels distinct, and frees its own |
| SlaveProtocol.NegotiationSound | code/c/common/opdi_slave_protocol.c:1456-1519 | what is required by either side is kept, what is used was offered, and the device's prohibition holds unless it requires encryption itself |
| SlaveProtocol.NegotiateIff | code/c/common/opdi_slave_protocol.c:1456-1519 | when the slave agrees, when encryption is then used, and which of the two a refusal names, as conditions on flags, method and offer |
| SlaveProtocol.MasterProhibitionKeptIff | code/c/common/opdi_slave_protocol.c:1504-1519 | the master's prohibition is respected exactly when it offers nothing the device would use, or the device prohibits or requires encryption |
| SlaveProtocol.StepGood | code/c/common/opdi_slave_protocol.c:1380-1693 | every message and every failing wait keeps the invariant of the connection |
| SlaveProtocol.RunGood | code/c/common/opdi_slave_protocol.c:1305-1693 | so every run from an unencrypted start has it: plain until the reply, as negotiated behind it, connected only in the loop and after every check |
| SlaveProtocol.ConnectedIsChecked | code/c/common/opdi_slave_protocol.c:1679-1692 | whenever a run is connected: the callback was made, encryption is on if either side requires it and then with an offered method, and required credentials were accepted before |
| SlaveProtocol.EndIsClean | code/c/common/opdi_slave_protocol.c:1380-1693 | however a run ends: not connected, the timeout restored, the callbacks START alone or with CONNECTED and DISCONNECTED |
| SlaveAnswers.GreetingIsAnswered | code/c/common/opdi_slave_protocol.c:1456-1565 | a greeting the slave understands is answered with the reply and a wait for the selection, or with the refusal and its code, or ends with the status of what fails |
| SlaveAnswers.NoGreetingStops | code/c/common/opdi_slave_protocol.c:1409-1455 | anything else ends the call with its status, and nothing is sent |
| SlaveAnswers.SelectionIsAnswered | code/c/common/opdi_slave_protocol.c:1571-1643 | when a selection is accepted, which handler it chooses, what is sent and logged, and the status if it is not |
| SlaveAnswers.CredentialsAreChecked | code/c/common/opdi_slave_protocol.c:1645-1692 | what is logged, sent and returned for every message in place of credentials; accepted exactly if the device takes parts 1 and 2 and the agreement goes out |
| SlaveAnswers.EarlyWaitEnds | code/c/common/opdi_slave_protocol.c:1571-1652 | a wait that fails ends the handshake with its status and without a word, the longer timeout gone |
| SlaveAnswers.RequestIsHandled | code/c/common/opdi_slave_protocol.c:1336-1361 | a request goes to the chosen handler, once; the slave goes on exactly if neither handler nor device objects; for an objection but the intended disconnect the error is sent and is the status, and the callback is made |
| SlaveAnswers.ControlIsObeyed | code/c/common/opdi_slave_protocol.c:1321-1334 | what a message on the control channel does; no handler is called |
| SlaveAnswers.LoopEnds | code/c/common/opdi_slave_protocol.c:1310-1319 | too many parts and a wait that fails end the connection with the callback and without a word |
| SlaveAnswers.RequestsAreHandled | code/c/common/opdi_slave_protocol.c:1305-1362 | over every run: each request heard once the connection stands is followed at once by exactly one call of the handler for its channel, and the handler is called at no other time |
| SlaveAnswers.HandlerStays | code/c/common/opdi_slave_protocol.c:1305-1362 | the handler chosen by the selection is the one to the end |
| SlaveStart.OpdiSlave.constructor | code/c/common/opdi_slave_protocol.c:1367-1374 | encryption is off |
| SlaveStart.OpdiSlave.NegotiateEncryption | code/c/common/opdi_slave_protocol.c:1456-1519 | the checks and loops compute Negotiate |
| SlaveStart.OpdiSlave.Handshake | code/c/common/opdi_slave_protocol.c:1409-1565 | from the handshake message to the reply, as the state machine does it |
| SlaveStart.OpdiSlave.ProtocolSelect | code/c/common/opdi_slave_protocol.c:1571-1635 | from the protocol selection to the slave's name |
| SlaveStart.OpdiSlave.Authenticate | code/c/common/opdi_slave_protocol.c:1645-1676 | from the credentials to the agreement, the timeout set back first |
| SlaveStart.OpdiSlave.HandleMessage | code/c/common/opdi_slave_protocol.c:1312-1361 | one turn of the message loop, with handle_message_result |
| SlaveStart.OpdiSlave.MessageLoop | code/c/common/opdi_slave_protocol.c:1305-1362 | the loop runs the state machine until it ends |
| SlaveStart.OpdiSlave.Start | code/c/common/opdi_slave_protocol.c:1380-1693 | opdi_slave_start is a run of the state machine over the messages it takes, up to its end, with the status it returns |
| MasterHandshake.RejectionIsNotRecognised | code/c/common/master/opdi_IODevice.cpp:280-290 | rejected credentials never raise the exception meant for them, for a disagreement is found before |
| MasterAnswers.SelectionIsSentIff | code/c/common/master/opdi_IODevice.cpp:293-441 | whatever arrives: the greeting goes first, and the selection is sent, second, exactly if the first message received is on channel 0 and has six parts that begin with OPDI, a version that is a number and not newer, flags that are a number and the basic protocol, and the master requires no encryption |
| MasterAnswers.RefusedReply | code/c/common/master/opdi_IODevice.cpp:310-441 | any other reply: the greeting and, for a newer version or a missing protocol, a disagreement are all that is sent, and the exception is the one for the reason |
| MasterAnswers.ProtocolIsReturnedIff | code/c/common/master/opdi_IODevice.cpp:293-501 | the protocol is returned exactly if the reply is acceptable, the device agrees to the selection and, if its flags ask for credentials, there are some and it confirms them |
| MasterAnswers.SentInAll | code/c/common/master/opdi_IODevice.cpp:293-501 | all that is sent to an acceptable reply: credentials exactly if the device agrees, asks for them and there are some |
| MasterHandshake.IODevice.GetHandshakeMessage | code/c/common/master/opdi_IODevice.cpp:227-277 | takes one message and returns its parts or throws as HandshakeParts says |
| MasterHandshake.IODevice.Handshake | code/c/common/master/opdi_IODevice.cpp:293-501 | sends and ends as MasterRun says; the protocol is set exactly if it is returned, and new credentials are kept only then |
| Protocol.FlagsAreBits | code/c/common/opdi_constants.h:93-102 | the three flags are the three lowest bits of every number |
| Protocol.SendStatusIff | code/c/common/opdi_slave_protocol.c:1545-1562 | parts can be sent exactly if their join fits the payload buffer with its NUL, holds no terminator and makes a frame shorter than the message buffer |
| Protocol.StrToInt32OfSigned | code/c/platforms/avr/opdi_platformfuncs.c:199-214 | a number that does not fit 32 bits is read as the nearest one that does |
| MasterHandshake.ConverseIsARun | code/c/common/master/opdi_IODevice.cpp:293-501 | a conversation is a run of the master's handshake and of the slave's state machine over what reaches each |
| MasterHandshake.MasterReadsFirst | code/c/common/master/opdi_IODevice.cpp:227-277 | the master finds the first word of a slave's message, whatever comes behind it |
| MasterHandshake.HelloIsRead | code/c/common/master/opdi_IODevice.cpp:298 | the slave splits the master's greeting into the four parts and reads its flags, for all 32 bit flags |
| MasterHandshake.DisagreementIsRead | code/c/common/master/opdi_IODevice.cpp:263-274 | a refusal that gets through is read as one |
| MasterHandshake.HandshakeAgrees | code/c/common/master/opdi_IODevice.cpp:293-501 | if the master's handshake returns the protocol, for any device and whatever texts it answers with, the slave is connected with the basic handler, encryption is off and required by nobody, and credentials were taken exactly if the device's flag asks for them, from the parts the master's arrive as |
| MasterHandshake.ReplyFlagsAreRead | code/c/common/master/opdi_IODevice.cpp:369-374 | a reply that makes the master go on gives it the device's flags, even if the texts around them start with separators |
| MasterHandshake.CredentialsArriveIff | code/c/common/opdi_slave_protocol.c:1654-1670 | user name and password arrive with a leading blank doubled and as two blanks if empty, and so as the very texts exactly when they are neither empty nor start with a blank or the separator |
| MasterHandshake.AuthIsReadIff | code/c/common/opdi_slave_protocol.c:1654-1661 | the slave finds the word for the credentials exactly when the user name does not start with the separator |
| MasterHandshake.RequiredEncryptionPreventsSuccess | code/c/common/master/opdi_IODevice.cpp:376-386 | any flag that requires encryption keeps the handshake from succeeding |
| MasterHandshake.EmptyMethodEncryptsIff | code/c/common/opdi_slave_protocol.c:1480-1519 | with the master's empty offer, the slave encrypts exactly if its method has an empty name and the flags do not stand against it |
| MasterHandshake.HandshakeSucceeds | code/c/common/master/opdi_IODevice.cpp:293-501 | a handshake that nothing speaks against returns the protocol |
| MasterHandshake.AuthenticationSucceedsIff | code/c/common/master/opdi_IODevice.cpp:443-491 | if the device asks for credentials, it does so exactly if the master has some that can be sent, the user name does not start with the separator, the device accepts the texts that arrive, and its agreement goes out |
| HandshakeExample.ExampleIsWilling | code/c/common/master/opdi_IODevice.cpp:293-501 | what both need can be had: a master, a device and answers that meet it |
| HandshakeExample.ExampleSucceeds | code/c/common/master/opdi_IODevice.cpp:293-501 | with them a handshake returns the protocol, with and without credentials |

## Left out

- The literal tables sm_T1 to sm_T8 and sm_U1 to sm_U4 and the logarithm tables: the folded tables are defined by the formula they are generated with; only sm_S, sm_Si, sm_rcon and sm_shifts are data here.
- Rijndael.CRijndael.Encrypt: source and result buffers do not overlap in the model, as the input is a value; encryption in place on one buffer is not covered.
- Wire.SentIsReceived: the receive function is a sequence of bytes that then fails for good; that it may itself send while it waits, and its timeouts, are not modelled.
- Messaging.Messaging.GetEncrypted: what a failing block function leaves in the message buffer is not modelled.
- Messaging.Messaging.Encode: channels are below 1000, for the channel buffer of the source takes no more; it does not check that.
- Numbers.StrToUint16: for texts too short to overflow a long, which holds for the three bytes decode passes to it.
- StringsInPlace.StringsSplit: one pointer more than maxParts is asked for, for the source writes it before it reports the overflow; fewer than 255 parts and texts below 64 kB, for its counters are that wide.
- StringsInPlace.StringsJoin: one byte more than maxLength is asked for, for the same reason; the separator is neither NUL nor a blank.
- MasterMessages.SlaveToMaster: the number parsers of the Poco library, for channels and checksums, are parameters, of which only is asked that they read plain digits; for error detection also that the hexadecimal one refuses an empty text and one with a separator in it.
- LineAssembler.MessageProcessor.Run: threads, queues, the dispatch to the protocol and exceptions of the device are not modelled; a line that goes to decode is recorded.
- MasterHandshake.HandshakeAgrees: on a reliable link, where a message counts as delivered exactly when the sender's put succeeded; a plain message to an encrypting slave counts as a wait that fails; an aborted connection attempt is not modelled.
- MasterHandshake.IODevice.GetHandshakeMessage: its early return for a connection that is no longer being made is not modelled.
- MasterHandshake.IODevice.Handshake: one complete handshake line is taken as received; receiveHandshakeMessage is not part of this model.
- SlaveProtocol.RunGood: protocol handlers and device callbacks are arbitrary results; what a handler itself sends, and the extended and basic message handlers behind it, are not modelled. Builds without encryption or without authentication are not modelled.
- Protocol.StrToInt32: as on a platform whose long has 32 bits, where a number out of range becomes the nearest one.
- UartRings.Uart.Run: interrupts are atomic against the main program and each access of the main program to shared data is one step; the error flags and their delivery are not modelled. Rings have at least two slots.
- Int64.Strtoll: base 10 only, the one it is called with.
- Ports.PortTable.UnbindPort: a port can be bound to two channels, so nothing is claimed about its own channel field beyond the call. Port groups, port messages and the parsing of the bind request are not modelled.
- Sockets, serial ports, console and main programs, stepper and PWM code: plumbing.
- The lock-free queue of libctb and the second UART, a copy of the first: would only add easy members or none that hold.
