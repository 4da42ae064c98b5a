# Metartc verification

A Dafny model of five cores of the metartc libraries, with proofs that the code means what it is
meant to mean. `dafny verify dfyconfig.toml` checks everything.

1. **Bit reader and Exp-Golomb / VLC decoders** (`Words`, `BitStream`, `BitReader`, `ExpGolomb`,
   `GolombTables`, `GolombReader`, `GolombLists`, `InterleavedCodes`, `InterleavedReader`, `Vlc`). Words are
   numbers below 2^32 with C's shifts, masks and wrap-around written out; the specification is the sequence of
   bits of the buffer. The reader is a class whose methods advance an index. Every decoder (lookup tables by index range,
   arithmetic slow paths, the chunked loop and the bit-twiddling loop) is proved against a bit-at-a-time
   definition: sections 9.1 and 9.1.1 of ITU-T H.264 for ue, se and te, Annex A.4.3 of SMPTE ST 2042-1 for the
   interleaved codes. Only the configuration that the header selects is modelled: big-endian, unchecked,
   32-bit cache.
2. **Per-user decoder tables** (`VideoStreams`, `VideoHandles`, `AudioStreams`, `AudioHandles`). The streams
   modules say what the tables mean and prove safety over all runs of loop turns and control calls; the handles
   modules are the classes with their parallel vectors, each method proved to do the corresponding step.
3. **Meeting roster and text protocol** (`Roster`, `UserDataBase`, `CommandText`, `CommandHandle`). The roster
   with its derived id lists, the loops that erase while iterating, the three nested print/parse layers, and
   the path of a received message down to the roster.
4. **Audio byte queues** (`AudioCapture`, `AudioRender`, `Memory`). Flat caches with a sliding window and
   memmove compaction refine byte queues; conservation is proved over all runs.
5. **In-place images and the growable vector** (`ImageOverlay`, `Blending`, `ImageBlending`,
   `GrowableVector`). Every byte of an image after the overlay or the blend, and the array-to-sequence
   refinement of the vector macros.

Where the code falls short of its intent the exact condition is proved, with an input that fails:
`GolombReader.GetUeGolomb31` is right exactly for values up to 31 (`ThirtyTwoMissed`),
`GolombReader.GetSeGolomb` exactly when its two loads reach the code (`LateOneMissed`), the long readers exactly
for numbers that fit, `Roster.EraseMissesDoubled`, `Roster.LogoutConsistent` and `Roster.LeaveRoomConsistent`
say when the roster's loops, `logout` and `leaveRoom` go wrong (`DoubledSurvives`, `NegativeLogoutBreaks`,
`LeaveRoomBreaks`), `CommandText.LoginSurvives` which user names get through (`CommaNameLost`), and
`Blending.LumaOfEqual` and `Blending.ChromaOfEqual` when blending equal values changes them.

Notation: `Val(s, p, n)` is the big-endian number in the n bits of stream s from p; `UeAt`, `SeAt`, `UintAt`
and `SintAt(s, p, r, q)` say that the code at p has value r and ends at q; `Pairs(s, p)` counts the data bits
of an interleaved code; `Room(n)` says that n bits of the padded buffer lie beyond the index.

## Model

| member | source | states |
|---|---|---|
| BitStream.CacheIsWindow | include/yangavutil/video/YangGetBits.h:107-108 | a cache load at any bit offset p holds exactly the 32 - p%8 next stream bits, left-aligned over zeros |
| BitStream.CacheShow | include/yangavutil/video/YangGetBits.h:64 | the top n bits of the loaded cache are the big-endian integer of the next n stream bits |
| BitStream.ValSplit | include/yangavutil/video/YangGetBits.h:460-497 | a read of a + b bits is a read of a bits followed by one of b bits, at any split point |
| BitReader.SignExtendIs | include/yangavutil/video/YangGetBits.h:39-46 | shifting up and arithmetically down again is the two's complement reading of the low n bits |
| BitReader.XbitsIs | include/yangavutil/video/YangGetBits.h:258-282 | the xor-and-subtract trick is the MPEG-1 dc reading of the top n bits, whatever lies below them |
| BitReader.PaddingCoversLoads | include/yangavutil/video/YangGetBits.h:533-557 | after a successful init every load with index up to 480 bits past the data size stays in the padded buffer and no such index overflows int32 |
| BitReader.GetBitContext.Init | include/yangavutil/video/YangGetBits.h:539-564 | succeeds for exactly the non-null buffers with sizes in range, otherwise leaves an empty context and INVALIDDATA |
| BitReader.GetBitContext.InitBytes | include/yangavutil/video/YangGetBits.h:574-579 | the same for byte sizes: succeeds exactly when eight times the size is in range |
| BitReader.GetBitContext.ShowBits | include/yangavutil/video/YangGetBits.h:377-391 | the next 1 to 25 bits as a big-endian integer, index unchanged |
| BitReader.GetBitContext.GetBits | include/yangavutil/video/YangGetBits.h:318-343 | the next 1 to 25 bits as a big-endian integer, index advanced by their number |
| BitReader.GetBitContext.GetBits1 | include/yangavutil/video/YangGetBits.h:419-447 | the next stream bit, through the truncating byte shift |
| BitReader.GetBitContext.GetSbits | include/yangavutil/video/YangGetBits.h:299-313 | the two's complement value of the next n bits |
| BitReader.GetBitContext.GetXbits | include/yangavutil/video/YangGetBits.h:263-282 | the dc value of the next n bits |
| BitReader.GetBitContext.GetBitsLong | include/yangavutil/video/YangGetBits.h:460-480 | the next 0 to 32 bits as one integer although two reads are joined by shift and or |
| BitReader.GetBitContext.GetBits64 | include/yangavutil/video/YangGetBits.h:485-497 | the next 0 to 64 bits as one integer |
| BitReader.GetBitContext.GetSbitsLong | include/yangavutil/video/YangGetBits.h:502-508 | the sign-extended value of the next 0 to 32 bits |
| BitReader.GetBitContext.ShowBitsLong | include/yangavutil/video/YangGetBits.h:513-520 | the next 1 to 32 bits read through a copy, index unchanged |
| BitReader.GetBitContext.Skip1Stop8DataBits | include/yangavutil/video/YangGetBits.h:736-747 | ends, and returns 0 exactly when some multiple of nine bits on holds a zero stop bit inside the data, just past the first such bit |
| ExpGolomb.CodeIsNumber | include/yangavutil/video/YangGolomb.h:222-229 | a whole ue code of section 9.1 of H.264, read as one number, is codeNum + 1 |
| ExpGolomb.NotAllZero | include/yangavutil/video/YangGolomb.h:357-358 | the next n bits are not all zero exactly when the leading one is among them |
| GolombTables.SlotIsCode | include/yangavutil/video/YangGolomb.h:15-83 | every slot reached with at most four leading zeros holds the length, value and signed value of the code its index begins with |
| GolombTables.Log2IsFloor | include/yangavutil/video/YangGolomb.h:158-186 | the masked, table-driven log2 is the position of the leading one of any word |
| GolombReader.CacheLog2 | include/yangavutil/video/YangGolomb.h:220-229 | log2 of a loaded cache counts the leading zeros of the stream as far as the load reaches |
| GolombReader.FastPathGuard | include/yangavutil/video/YangGolomb.h:213 | the comparison with 2^27 takes the table path for exactly the codes with at most four leading zeros |
| GolombReader.GetUeGolomb | include/yangavutil/video/YangGolomb.h:188-233 | value and final index are those of section 9.1 on every code with at most 12 leading zeros, INVALIDDATA on all others, with the index it leaves behind |
| GolombReader.GetUeGolomb31 | include/yangavutil/video/YangGolomb.h:235-247 | right for exactly the values up to 31, with the right length |
| GolombReader.ThirtyTwoMissed | include/yangavutil/video/YangGolomb.h:235-247 | the code of 32 reads as 31 |
| GolombReader.GetUeGolombLong | include/yangavutil/video/YangGolomb.h:353-362 | exact value and index whenever there are at most 31 leading zeros, that is, the next 32 bits are not all zero; otherwise one less than the 32 bits behind 31 of the zeros, which is never the right value |
| GolombReader.GetTeGolomb | include/yangavutil/video/YangGolomb.h:310-319 | the inverted bit for a range of two, the ue code otherwise, its failure and the index it leaves included |
| GolombReader.GetTe0Golomb | include/yangavutil/video/YangGolomb.h:294-305 | the same, and nothing read for a range of one |
| GolombReader.SignOfCodeIs | include/yangavutil/video/YangGolomb.h:345-349 | the sign trick acting on codeNum + 1 is the signed mapping of section 9.1.1 |
| GolombReader.SignOfNumberIs | include/yangavutil/video/YangGolomb.h:363-369 | the sign trick acting on codeNum is the same signed mapping |
| GolombReader.GetSeGolomb | include/yangavutil/video/YangGolomb.h:320-352 | exact value and index if and only if the two loads reach the code; always for at most 24 leading zeros |
| GolombReader.LateOneMissed | include/yangavutil/video/YangGolomb.h:336-345 | in every buffer of four zero bytes before a byte of 128 or more, the code at bit 7, with 25 leading zeros, is whole but out of the loads' reach |
| GolombReader.GetSeGolombLong | include/yangavutil/video/YangGolomb.h:363-369 | exact signed value and index if and only if there are at most 31 leading zeros; otherwise not even the value is right |
| GolombLists.ReadUe | include/yangavutil/video/YangGolomb.h:353-362 | where the code of k stands the reader returns k if and only if k + 1 fits a word, and then ends where the code ends |
| GolombLists.ReadUeList | include/yangavutil/video/YangGolomb.h:353-362 | reading n times where n codes stand one after the other gives back the list that was written if and only if every number plus one fits a word, and then ends where the last code ends |
| GolombLists.ReadSe | include/yangavutil/video/YangGolomb.h:363-369 | where the code of a signed v stands the reader returns v if and only if v is an int32 other than the least |
| GolombLists.ReadSeList | include/yangavutil/video/YangGolomb.h:363-369 | the same list statement for signed numbers, right if and only if all are such int32 values |
| InterleavedCodes.ReadUintIs | include/yangavutil/video/YangGolomb.h:250-287 | the bit-at-a-time reader returns the value accumulated from the data bits less one, just past the stop bit |
| InterleavedCodes.SlotIsInterleaved | include/yangavutil/video/YangGolomb.h:84-157 | all four 256-entry tables hold, at the index made of the next eight bits, the length, unsigned, signed and partial value of the code |
| InterleavedReader.MaskSeesStops | include/yangavutil/video/YangGolomb.h:259 | masking with alternating ones is zero exactly when no stop bit is set |
| InterleavedReader.GetInterleavedUeGolomb | include/yangavutil/video/YangGolomb.h:250-287 | equals the bit-at-a-time reader and consumes exactly the code for up to 27 data bits; beyond, ends after seven turns and 56 bits with the value of the first 28 |
| InterleavedReader.JoinedLoads | include/yangavutil/video/YangGolomb.h:386-388 | two overlapping loads joined by or are the next 31 stream bits and a final one |
| InterleavedReader.TwiddleStep | include/yangavutil/video/YangGolomb.h:393-394 | one turn of the loop shifts the stream by a pair and adds its data bit to the value in the low bits |
| InterleavedReader.GetInterleavedSeGolomb | include/yangavutil/video/YangGolomb.h:371-402 | the signed mapping of the bit-at-a-time value and exactly 2j + 1 bits for j up to 15 data bits; otherwise INVALID_VLC and the index unchanged |
| Vlc.LookUp | include/yangavutil/video/YangGetBits.h:593-623 | one look-up in a table that is well formed for a prefix code finds the word, shows there is none, or leads to a sub-table well formed for what was read |
| Vlc.GetVlc2 | include/yangavutil/video/YangGetBits.h:683-714 | for every prefix code and every well-formed table of up to three levels: the symbol whose word starts the stream, advancing by its length; -1 if there is none, with the index unchanged at depth one |
| Vlc.TableExists | include/yangavutil/video/YangGetBits.h:674-682 | for every depth and index width, every code book whose words fit that many look-ups has a well-formed table of that depth |
| VideoStreams.EveryRunIsSafe | libmetartc5/src/yangdecoder/YangVideoDecoderHandles.cpp:184-269 | in every run user ids are distinct, each decoder's first frame has non-zero type, no parameter set and no other user's frame is ever decoded, and pictures land in their own user's output |
| VideoStreams.FindIsLookup | libmetartc5/src/yangdecoder/YangVideoDecoderHandles.cpp:61-82 | with distinct users the first match is the only match |
| VideoStreams.DeliverIsLocal | libmetartc5/src/yangdecoder/YangVideoDecoderHandles.cpp:238-263 | a frame touches no other user's decoder or output |
| VideoStreams.TurnDecodes | libmetartc5/src/yangdecoder/YangVideoDecoderHandles.cpp:238-263 | a frame that is no parameter set is appended, behind a start code written over its first four bytes, to what its own user's decoder received, the pictures to that user's output, and a waiting decoder starts; nothing happens without a decoder, or while it waits and the frame has type zero |
| VideoStreams.TurnOpens | libmetartc5/src/yangdecoder/YangVideoDecoderHandles.cpp:222-228 | a parameter set of an unknown user opens one stream at the end, with a waiting decoder that has received nothing and an empty output; one of a known user changes nothing |
| VideoStreams.NewUserIsDecoded | libmetartc5/src/yangdecoder/YangVideoDecoderHandles.cpp:222-263 | over two turns, a parameter set and a key frame of a new user make that key frame the one frame received and its pictures all that is put out, with the earlier streams unchanged |
| VideoStreams.WaitingDiscards | libmetartc5/src/yangdecoder/YangVideoDecoderHandles.cpp:240-243 | a waiting decoder discards frames of type zero, as many as come |
| VideoStreams.DropIs | libmetartc5/src/yangdecoder/YangVideoDecoderHandles.cpp:104-129 | the first queued request for a user who is there takes that user's stream out and is the last one consumed |
| VideoStreams.DropNothing | libmetartc5/src/yangdecoder/YangVideoDecoderHandles.cpp:104-129 | without such a request no stream goes and the queue is emptied, but by one request only when there are no decoders |
| VideoStreams.TurnDrops | libmetartc5/src/yangdecoder/YangVideoDecoderHandles.cpp:207-216 | every turn works on the queue, with a frame or without |
| VideoStreams.DropRemovesOne | libmetartc5/src/yangdecoder/YangVideoDecoderHandles.cpp:104-129 | a removeStream call takes a non-empty prefix off the queue and removes at most one stream, one that was asked for |
| VideoStreams.RemovalTakesEffect | libmetartc5/src/yangdecoder/YangVideoDecoderHandles.cpp:104-129 | as many turns as there are requests drain the queue and the user is gone, if nothing is added or reopened |
| VideoStreams.RequestTakesEffect | libmetartc5/src/yangdecoder/YangVideoDecoderHandles.cpp:153-158 | a removal request is queued behind the others, and as many turns as there are requests later the user is gone, if none of them opens the stream again |
| VideoStreams.RemoveAllIs | libmetartc5/src/yangdecoder/YangVideoDecoderHandles.cpp:84-101 | no user is found any more, and the queue stays |
| VideoHandles.VideoDecoderHandles.RemoveStream | libmetartc5/src/yangdecoder/YangVideoDecoderHandles.cpp:104-129 | the nested loops keep both vectors in step and do one removal step |
| VideoHandles.VideoDecoderHandles.RemoveAllStream | libmetartc5/src/yangdecoder/YangVideoDecoderHandles.cpp:84-101 | no stream is left in either vector |
| VideoHandles.VideoDecoderHandles.AddVideoStream | libmetartc5/src/yangdecoder/YangVideoDecoderHandles.cpp:131-159 | pushes decoder and buffer in step, or queues the removal |
| VideoHandles.VideoDecoderHandles.OnVideoData | libmetartc5/src/yangdecoder/YangVideoDecoderHandles.cpp:174-181 | a picture goes to its own user's buffer, if any |
| VideoHandles.VideoDecoderHandles.LoopTurn | libmetartc5/src/yangdecoder/YangVideoDecoderHandles.cpp:201-265 | a loop turn is one step of the stream list |
| AudioStreams.EveryRunIsGood | libmetartc5/src/yangdecoder/YangAudioDecoderHandles.cpp:70-273 | in every run outputs and decoders are distinct by user, every output has a decoder, every decoder a parameter entry, and frames sit in their own user's output |
| AudioStreams.RemoveForgets | libmetartc5/src/yangdecoder/YangAudioDecoderHandles.cpp:123-165 | removal takes output and decoder away but keeps the parameters exactly when there was an output |
| AudioStreams.OthersUntouched | libmetartc5/src/yangdecoder/YangAudioDecoderHandles.cpp:123-259 | a removal or a turn leaves every other user's output as it was |
| AudioStreams.TurnDelivers | libmetartc5/src/yangdecoder/YangAudioDecoderHandles.cpp:194-266 | what a turn decodes is appended in order to the user's own output, opened at the end if there was none, and every other output stays where and as it was |
| AudioStreams.TurnDecoder | libmetartc5/src/yangdecoder/YangAudioDecoderHandles.cpp:239-259 | a user's decoder is kept; a new one gets the remembered parameters, or else the local configuration, which is then remembered; nobody else's decoder or parameters change |
| AudioStreams.AnnouncedIsUsed | libmetartc5/src/yangdecoder/YangAudioDecoderHandles.cpp:70-86 | announced parameters are remembered field by field, with the local fec, and a decoder created afterwards is given exactly these |
| AudioStreams.RemoveSpares | libmetartc5/src/yangdecoder/YangAudioDecoderHandles.cpp:123-165 | removal changes nobody else's decoder or parameters |
| AudioStreams.RemoveAllForgets | libmetartc5/src/yangdecoder/YangAudioDecoderHandles.cpp:96-121 | nobody has an output, a decoder or parameters any more |
| AudioHandles.AudioDecoderHandles.SetRemoteParam | libmetartc5/src/yangdecoder/YangAudioDecoderHandles.cpp:70-86 | the user's parameters are replaced, with fec from the local configuration |
| AudioHandles.AudioDecoderHandles.RemoveAllStream | libmetartc5/src/yangdecoder/YangAudioDecoderHandles.cpp:96-121 | all four tables are emptied |
| AudioHandles.AudioDecoderHandles.RemoveAudioStream | libmetartc5/src/yangdecoder/YangAudioDecoderHandles.cpp:123-165 | the early return included, one removal step that keeps players attached to their users' live outputs |
| AudioHandles.AudioDecoderHandles.OnAudioData | libmetartc5/src/yangdecoder/YangAudioDecoderHandles.cpp:194-213 | opens output and player together for a new user and appends the frame to its own user's output |
| AudioHandles.AudioDecoderHandles.LoopTurn | libmetartc5/src/yangdecoder/YangAudioDecoderHandles.cpp:237-266 | a loop turn is one step of the tables |
| Roster.EraseMissesDoubled | libmetameeting5/src/src/YangUserDataBase.cpp:61-66 | erasing while iterating leaves the id behind if and only if it stands twice in a row |
| Roster.DoubledSurvives | libmetameeting5/src/src/YangUserDataBase.cpp:61-66 | erasing 7 from the list 7, 7 leaves a 7 |
| Roster.EraseIsListed | libmetameeting5/src/src/YangUserDataBase.cpp:61-66 | in a list without repetitions it erases the id and nothing else |
| Roster.DelIsWithout | libmetameeting5/src/src/YangUserDataBase.cpp:117-126 | on a consistent roster delUser removes that user from roster and lists and touches nobody else |
| Roster.AudioConsistent | libmetameeting5/src/src/YangUserDataBase.cpp:149-172 | the audio list stays exactly the others whose micFlag is 2 |
| Roster.VideoConsistent | libmetameeting5/src/src/YangUserDataBase.cpp:128-148 | the video list stays exactly the others whose camFlag is 2 |
| Roster.AddConsistent | libmetameeting5/src/src/YangUserDataBase.cpp:67-107 | adding any record, known id or not, keeps the roster consistent |
| Roster.AudioEffect | libmetameeting5/src/src/YangUserDataBase.cpp:149-172 | switching a known other user sets that user's flag to 2 or 1 and nothing else on the roster; the id joins the list's end if missing, or leaves its first place; anything else changes nothing |
| Roster.VideoEffect | libmetameeting5/src/src/YangUserDataBase.cpp:128-148 | the same for the camera |
| Roster.AddUnknown | libmetameeting5/src/src/YangUserDataBase.cpp:96-106 | an unknown other user's record is appended, and its flags of value 2 put the id at the end of the lists |
| Roster.AddKnown | libmetameeting5/src/src/YangUserDataBase.cpp:96-106 | a known user's record changes only the flags that come as 2, and puts the id on those lists |
| Roster.AddSelf | libmetameeting5/src/src/YangUserDataBase.cpp:96-106 | one's own record is appended if it is missing, and never put on a list |
| Roster.LogoutConsistent | libmetameeting5/src/src/YangUserDataBase.cpp:204-213 | logout keeps the roster consistent if and only if the id is not negative or in neither list |
| Roster.LogoutIs | libmetameeting5/src/src/YangUserDataBase.cpp:204-213 | logout of a known user takes exactly that user out of roster and lists if the id is not negative, and out of the lists only if it is |
| Roster.LoginHandleIs | libmetameeting5/src/src/YangUserDataBase.cpp:35-59 | a leaving user is taken out of roster and lists, and nobody else is touched; an arriving one and a negative index change nothing, an index past the end throws |
| Roster.ClearForgets | libmetameeting5/src/src/YangUserDataBase.cpp:21-34 | nobody is left on the roster, heard or seen |
| Roster.NegativeLogoutBreaks | libmetameeting5/src/src/YangUserDataBase.cpp:204-213 | a roster and a negative id for which logout breaks it |
| Roster.LeaveRoomConsistent | libmetameeting5/src/src/YangUserDataBase.cpp:198-203 | leaveRoom keeps the roster consistent if and only if both lists are empty |
| Roster.LeaveRoomBreaks | libmetameeting5/src/src/YangUserDataBase.cpp:198-203 | a roster of one heard user that leaveRoom breaks |
| Roster.EveryRunConsistent | libmetameeting5/src/src/YangUserDataBase.cpp:21-213 | in every run without a logout of a listed negative id: distinct users, lists without repetitions, and an id listed exactly when another user's flag is 2 |
| UserDataBase.UserDataBase.HandleAudioStream | libmetameeting5/src/src/YangUserDataBase.cpp:149-172 | flag and list of the stored user object change together, nothing else does |
| UserDataBase.UserDataBase.HandleVideoStream | libmetameeting5/src/src/YangUserDataBase.cpp:128-148 | the same for the camera |
| UserDataBase.UserDataBase.AddMember | libmetameeting5/src/src/YangUserDataBase.cpp:96-106 | one adding step; the new index, or -1 for an id already known |
| UserDataBase.UserDataBase.DelUser | libmetameeting5/src/src/YangUserDataBase.cpp:117-126 | the erasing loop is one deleting step |
| UserDataBase.UserDataBase.RemoveVectorUid | libmetameeting5/src/src/YangUserDataBase.cpp:61-66 | the erasing loop skips the element after an erased one |
| UserDataBase.UserDataBase.LoginHandle | libmetameeting5/src/src/YangUserDataBase.cpp:35-59 | the leaving user is taken out; out of range, it fails and changes nothing |
| UserDataBase.UserDataBase.Logout | libmetameeting5/src/src/YangUserDataBase.cpp:204-213 | one leaving step; an unknown non-negative id fails and changes nothing |
| UserDataBase.UserDataBase.Clear | libmetameeting5/src/src/YangUserDataBase.cpp:21-34 | roster and lists are emptied |
| CommandText.AtoiReads | libmetameeting5/src/src/YangUserDataBase.cpp:78-90 | atoi skips white space, takes a sign, and reads the decimal number up to the first other character |
| CommandText.AtoiPrint | libmetameeting5/src/src/YangUserDataBase.cpp:78-90 | atoi undoes the decimal print of any integer |
| CommandText.TokensJoin | libmetameeting5/src/src/YangUserDataBase.cpp:76-94 | strtok over joined non-empty fields gives the fields back |
| CommandText.TokensNonEmpty | libmetameeting5/src/src/YangUserDataBase.cpp:76-94 | strtok over joined fields, empty ones among them, gives exactly the non-empty ones |
| CommandText.RecordFields | libmetameeting5/src/src/YangUserDataBase.cpp:74-94 | a record's fields by position among the non-empty ones: a missing one counts as zero or empty, one too many is ignored |
| CommandText.FieldsJoin | libmetameeting5/src/src/YangCommandHandle.cpp:27-36 | split over joined fields gives them back, empty ones included, then the pieces of the last one |
| CommandText.ParseLine | libmetameeting5/src/src/YangCommandHandle.cpp:47-61 | sender, addressee, command and content are read from their places of a line of four different numbers; one's own lines are ignored |
| CommandText.ShortLines | libmetameeting5/src/src/YangCommandHandle.cpp:51-60 | four numbers without a content fail, fewer are ignored |
| CommandText.CommandLineFields | libmetameeting5/src/src/YangCommandHandle.cpp:79-84 | the formatted line carries the room, the sender twice, the command and the content |
| CommandText.ParseCommandLine | libmetameeting5/src/src/YangCommandHandle.cpp:47-88 | a formatted command of another user parses to the same sender, command and content, cut at the first colon, and is ignored by its sender |
| CommandText.EnvelopeRoundTrip | libmetameeting5/src/src/YangUserData.cpp:18-42 | type, length and payload come out of the envelope as they went in |
| CommandText.CStringEnds | libmetameeting5/src/src/YangCommandHandle.cpp:59-60 | a char pointer shows exactly what stands before the first zero byte |
| CommandText.EnvelopeBytes | libmetameeting5/src/src/YangUserData.cpp:18-25 | the envelope is the type byte, the length as a 32-bit big-endian number, and the payload |
| CommandText.LoginRoundTrip | libmetameeting5/src/src/YangUserDataBase.cpp:67-222 | a record with a plain name parses back from its own login string, all six fields |
| CommandText.LoginSurvives | libmetameeting5/src/src/YangCommandHandle.cpp:47-88 | through record, command line and envelope a peer reads the same sender and command always, and the same record if and only if the name is not empty and holds no separator |
| CommandText.CommaNameLost | libmetameeting5/src/src/YangCommandHandle.cpp:47-88 | a record named "a,b" that fits every buffer is received as a login and parses to another record |
| CommandHandle.DeliverConsistent | libmetameeting5/src/src/YangCommandHandle.cpp:62-74 | whatever message arrives, the roster stays consistent |
| CommandHandle.LoginReaches | libmetameeting5/src/src/YangCommandHandle.cpp:47-148 | a login of an unknown user, enveloped and delivered to a peer, appends exactly that record to the peer's roster and lists the id exactly where its flag is 2; nobody else's place on a list changes |
| CommandHandle.LoginOfKnown | libmetameeting5/src/src/YangCommandHandle.cpp:47-148 | a login of a known user switches on the flags that come as 2, lists the id there, and changes nothing else |
| CommandHandle.OthersIgnored | libmetameeting5/src/src/YangCommandHandle.cpp:141-197 | one's own commands, and all command numbers but the login and the four publish commands, leave the roster alone |
| CommandHandle.OtherTypesIgnored | libmetameeting5/src/src/YangCommandHandle.cpp:68-73 | messages of other types leave the roster alone |
| CommandHandle.PublishedIsHeard | libmetameeting5/src/src/YangCommandHandle.cpp:75-197 | a known user's microphone command, formatted, enveloped, parsed and dispatched, puts exactly that user on the peer's audio list, closing takes exactly that user off, and the roster stays consistent |
| CommandHandle.PublishedIsSeen | libmetameeting5/src/src/YangCommandHandle.cpp:75-197 | the same for the camera and the video list |
| CommandHandle.RoomListRestores | libmetameeting5/src/src/YangCommandHandle.cpp:126-139 | a room list made of the records of any number of distinct, plain-named users restores exactly those users, in order, on an empty roster |
| CommandHandle.RecordOfKnown | libmetameeting5/src/src/YangCommandHandle.cpp:126-139 | a record of a user already known, anywhere in a room list, changes only the flags that come as 2, and lists the id there |
| CommandHandle.Split | libmetameeting5/src/src/YangCommandHandle.cpp:27-36 | the getline loop yields the fields |
| CommandHandle.StrTok | libmetameeting5/src/src/YangUserDataBase.cpp:76-93 | a call returns the next token and leaves the rest, and fails exactly when no token is left |
| CommandHandle.ParseUserText | libmetameeting5/src/src/YangUserDataBase.cpp:74-94 | the token loop fills the record field by field, zero where a field is missing |
| CommandHandle.PutMessage | libmetameeting5/src/src/YangUserData.cpp:18-25 | the filled buffer is the envelope of type and payload |
| CommandHandle.PutBe32 | libmetartccore5/src/yangutil/sys/YangEndian.c:53-60 | the four bytes at the position are the big-endian number, the others unchanged |
| CommandHandle.CommandHandle.AddUser | libmetameeting5/src/src/YangUserDataBase.cpp:67-107 | parsing and adding a received record is one adding step of the roster |
| CommandHandle.CommandHandle.GetConfUserInfosResult | libmetameeting5/src/src/YangCommandHandle.cpp:126-139 | all records of a room list are added in order |
| CommandHandle.CommandHandle.HandleCommand | libmetameeting5/src/src/YangCommandHandle.cpp:141-197 | exactly login and the four publish commands of another user change the roster, each in its way |
| CommandHandle.CommandHandle.ParseCommandText | libmetameeting5/src/src/YangCommandHandle.cpp:47-61 | short or own commands are ignored, four fields fail, five are obeyed |
| CommandHandle.CommandHandle.HandleMessage | libmetameeting5/src/src/YangCommandHandle.cpp:62-74 | a received message does to the roster what its type and payload say, and fails exactly for a command of four fields from another user |
| AudioCapture.EveryRunConserves | libmetartc5/src/yangaudiodev/YangAudioCaptureData.cpp:35-75 | over any run every chunk has inBytes bytes, chunks and residue are the accepted audio in order, and the residue is below inBytes |
| AudioCapture.EveryByteComesOut | libmetartc5/src/yangaudiodev/YangAudioCaptureData.cpp:35-75 | over any run, chunks and residue together are the payloads of the frames let in, each cut to its nb, byte by byte at its place and nothing else |
| AudioCapture.SmallFramesKept | libmetartc5/src/yangaudiodev/YangAudioCaptureData.cpp:36 | if no frame exceeds the cache length less inBytes, none is ever dropped: the accepted audio is all the payloads, byte by byte |
| AudioCapture.AllKept | libmetartc5/src/yangaudiodev/YangAudioCaptureData.cpp:36 | and all frames are among those let in |
| AudioCapture.AcceptsExactly | libmetartc5/src/yangaudiodev/YangAudioCaptureData.cpp:36 | a frame is dropped exactly when it does not fit beside the last, incomplete chunk of all the audio accepted before it |
| AudioCapture.FramingIsInvisible | libmetartc5/src/yangaudiodev/YangAudioCaptureData.cpp:35-75 | the chunks are those of cutting all accepted audio at once, however it was framed |
| AudioCapture.AudioCaptureData.CaptureFrame | libmetartc5/src/yangaudiodev/YangAudioCaptureData.cpp:35-75 | a frame that fits is appended, payload bytes up to nb, and whole chunks are sent; one that does not changes nothing; the sliding window with its compactions stays in the cache |
| AudioRender.EveryRunConserves | libmetartc5/src/yangaudiodev/YangAudioRenderData.cpp:112-185 | over any run the blocks played and the bytes waiting are the frames put in, in order, and the same for the echo buffer |
| AudioRender.BlocksAreWhole | libmetartc5/src/yangaudiodev/YangAudioRenderData.cpp:112-185 | a block has exactly the length asked for, and a NULL loses nothing |
| AudioRender.PlayIs | libmetartc5/src/yangaudiodev/YangAudioRenderData.cpp:133-185 | a frame is fetched exactly while twice the length fits beside what waits, a block is the front of the queue and is returned exactly if enough waits, and a fetch is kept for the echo exactly if that is on |
| AudioRender.TakeEchoIs | libmetartc5/src/yangaudiodev/YangAudioRenderData.cpp:112-127 | echo is returned exactly if a block has been rendered and a block waits; then it is the front of the queue and rendering counts anew |
| AudioRender.RenderedIs | libmetartc5/src/yangaudiodev/YangAudioRenderData.cpp:129-131 | the count grows by the truncated quotient, and echo is returned once it and the echo reach a block |
| AudioRender.SetAecIs | libmetartc5/src/yangaudiodev/YangAudioRenderData.cpp:57-61 | nothing that waits changes, and from then on a fetch is kept for the echo |
| AudioRender.DoubleFramesFit | libmetartc5/src/yangaudiodev/YangAudioRenderData.cpp:155-173 | with resampled frames of at most twice the length asked for, and the echo buffer's obligation met, no call overruns a buffer |
| AudioRender.EchoIsWholeBlocks | libmetartc5/src/yangaudiodev/YangAudioRenderData.cpp:112-147 | the echo buffer always holds a whole number of inBytes blocks |
| AudioRender.AudioRenderData.GetRenderAudioData | libmetartc5/src/yangaudiodev/YangAudioRenderData.cpp:155-185 | one playing step of the queues, compactions invisible |
| AudioRender.AudioRenderData.GetAudioData | libmetartc5/src/yangaudiodev/YangAudioRenderData.cpp:133-147 | the first inBytes of what was fetched join the echo queue when echo cancelling is on |
| AudioRender.AudioRenderData.GetAecAudioData | libmetartc5/src/yangaudiodev/YangAudioRenderData.cpp:112-127 | one echo-taking step of the queues |
| AudioRender.AudioRenderData.EnableAec | libmetartc5/src/yangaudiodev/YangAudioRenderData.cpp:57-61 | echo cancelling is on from here on, the buffer allocated by the first call and kept by later ones, nothing queued changes |
| AudioRender.AudioRenderData.SetRenderLen | libmetartc5/src/yangaudiodev/YangAudioRenderData.cpp:129-131 | the rendered length grows by the truncated ratio |
| ImageOverlay.StartIsCorner | libmetartc5/src/yangavutil/YangImageConvert.cpp:232-282 | the start each model computes is the first byte of its rectangle, which touches the two edges of its corner |
| ImageOverlay.PlacedPixel | libmetartc5/src/yangavutil/YangImageConvert.cpp:232-284 | every byte afterwards is the overlay's inside the chosen corner's rectangle and the old one everywhere else; other models change nothing |
| ImageOverlay.OverlayByte | libmetartc5/src/yangavutil/YangImageConvert.cpp:249-250 | inside the rectangle the overlay is read in bounds at the position the code computes |
| ImageOverlay.PlusYuy2 | libmetartc5/src/yangavutil/YangImageConvert.cpp:232-284 | the two-byte loops write exactly that image in place, in bounds |
| Blending.MixBounds | libmetartc5/src/yangavutil/YangImageConvert.cpp:377-380 | a truncated weighted mean is within one of the interval of its values and never past it on the side away from zero |
| Blending.LumaFormula | libmetartc5/src/yangavutil/YangImageConvert.cpp:377 | the sums the model adds up are the products and truncating divisions of the code's luma |
| Blending.ChromaFormula | libmetartc5/src/yangavutil/YangImageConvert.cpp:378 | and those of its chroma |
| Blending.LumaBetween | libmetartc5/src/yangavutil/YangImageConvert.cpp:377-380 | luma stays a byte within one of the interval between its inputs, exactly the foreground at alpha 255 and the background at alpha 0 |
| Blending.ChromaBetween | libmetartc5/src/yangavutil/YangImageConvert.cpp:378-379 | the same for chroma under its two alphas |
| Blending.LumaOfEqual | libmetartc5/src/yangavutil/YangImageConvert.cpp:377 | blending a value with itself gives it back if and only if the weighted value has no remainder |
| Blending.ChromaOfEqual | libmetartc5/src/yangavutil/YangImageConvert.cpp:378-379 | the same for chroma: both weighted values must be without remainder |
| ImageBlending.BlendedByte | libmetartc5/src/yangavutil/YangImageConvert.cpp:357-408 | byte d of pair j of row i is the blend of the old bytes there, or, for a background alpha, the old byte |
| ImageBlending.PairFormula | libmetartc5/src/yangavutil/YangImageConvert.cpp:364-380 | every pixel byte of the result is the code's arithmetic on the old one: the first luma under the first alpha, the second under the second, both chromas under both |
| ImageBlending.BlendedBetween | libmetartc5/src/yangavutil/YangImageConvert.cpp:357-408 | every pixel byte of the result lies within one of the interval of its inputs; a luma is exact where its own alpha is 255 or 0, a chroma where both are |
| ImageBlending.BlendedFrame | libmetartc5/src/yangavutil/YangImageConvert.cpp:359-363 | the odd pixel of a row and everything past the last row are unchanged |
| ImageBlending.YuvBlending | libmetartc5/src/yangavutil/YangImageConvert.cpp:357-408 | with foreground alpha, the loops blend in place and in bounds; a null image gives -1 and no change |
| GrowableVector.EveryRunFits | include/yangutil/sys/YangVector.h:54-88 | over any run the size fits, the capacity is a multiple of five at most five above the peak size, and, as long as the second form gets no NULL, less than five above it once beyond five |
| GrowableVector.InsertIs | include/yangutil/sys/YangVector.h:55-64 | the value is the new last element, the others stay, and a full array grows by five |
| GrowableVector.InsertNullIs | include/yangutil/sys/YangVector.h:65-68 | a NULL appends a zeroed element in the first form, nothing in the second, and a full array grows in both |
| GrowableVector.InsertAllAppends | include/yangutil/sys/YangVector.h:55-68 | values inserted in a row stand in order behind what was there, whatever growing that took |
| GrowableVector.EmptiedIs | include/yangutil/sys/YangVector.h:74-88 | removing past the end changes nothing, from one element leaves none; only destroying gives capacity back |
| GrowableVector.RemoveKeepsOrder | include/yangutil/sys/YangVector.h:83-88 | removing takes one position out and keeps the order of the others |
| GrowableVector.InsertThenRemove | include/yangutil/sys/YangVector.h:54-88 | removing what was just inserted gives the elements back |
| GrowableVector.GrowableVector.InsertCopy | include/yangutil/sys/YangVector.h:55-68 | appends the value, or a zeroed element for NULL, growing when full |
| GrowableVector.GrowableVector.InsertPointer | include/yangutil/sys/YangVector.h:109-120 | appends the pointer, or nothing for NULL, growing when full |
| GrowableVector.GrowableVector.RemoveIndex | include/yangutil/sys/YangVector.h:83-88 | the memmove removes exactly the position; a single element is cleared |
| GrowableVector.GrowableVector.ClearAll | include/yangutil/sys/YangVector.h:79-82 | no element is left and the array is zeroed |
| GrowableVector.GrowableVector.DestroyAll | include/yangutil/sys/YangVector.h:74-78 | empty and without capacity, ready to grow again |

## Left out

- The cached, long and little-endian bit readers, `yang_get_bits_le`, `align_yang_get_bits`, `yang_decode012`, `yang_decode210` and `Yang_GET_RL_VLC`: not compiled in this configuration or one-line uses of what is proved.
- Reads past the padded buffer: `Room` asks each caller for the bits a decoder may touch, as the unchecked reader does.
- BitReader.GetBitContext.SkipBits: index arithmetic is unbounded; that no index reachable through the padding leaves int32 is `BitReader.PaddingCoversLoads`.
- The signed tables are `const char` in the source; they are taken as signed, as on the platforms the code targets.
- Vlc.TableExists: entries are unbounded integers; that a sub-table's position must fit an int16_t is not modelled.
- Vlc.GetVlc: the nested levels of the macro are a recursive method, one call a level.
- VideoHandles.VideoDecoderHandles.AddVideoStream: the link from a play buffer to the new video buffer (lines 148-151), which removal does not clear, is not modelled.
- Decoding, resampling, `parseRtmpHeader` and mixing are parameters: a call receives the pictures, audio or bytes they produce; the decoder calls back with the user id it was given.
- AudioHandles.AudioDecoderHandles.LoopTurn: the backlog reset of lines 268-269 concerns a ring buffer whose body is not part of this model.
- AudioHandles.AudioDecoderHandles.SetRemoteParam: parameters are values; that a decoder keeps a pointer to its entry and sees later changes is not modelled.
- Threads and races: every loop turn and every control call is one atomic step.
- CommandText.LoginSurvives: names and lines must fit the sender's buffers (`Fits`); what an overflowing sprintf does is not modelled. `YangUser` fields are unbounded, so an overlong name received is kept whole.
- CommandText.AtoiPrint: integers are unbounded, so atoi of more digits than an int holds is not modelled.
- CommandHandle.CommandHandle.HandleMessage: the announced length must lie within the message; reading past it is not modelled.
- The transport stream multiplexing between `putMessage` and `getMessage`, whose bodies work on 188-byte packets, and publishing.
- GUI messages, the login notice text, logging, sockets and devices.
- AudioRender.AudioRenderData.GetRenderAudioData: returned blocks are values; that the pointer is only good until the next call is not modelled; inBytes is positive.
- AudioCapture.AudioCaptureData.CaptureFrame: inBytes is positive and fixed during a run; the sent chunk is recorded before resampling.
- The 44.1 kHz re-chunking of the audio decoder handle, the MP3 encoder's accounting, `YUVBlending` without foreground alpha and `plusAuthor`: they do not do what they evidently mean to.
- Floating-point colour conversion.
- GrowableVector.GrowableVector.RemoveIndex: a negative index on more than one element is undefined in the source and excluded; NULL vectors are not modelled.
