# A verified model of the EOSERV game server

EOSERV is a C++ server for the Endless Online protocol. This project models the parts of it whose correctness is
hardest to see from the code, and proves what they are for. Each `.dfy` file is one component:

| file | models |
|---|---|
| `Common.dfy`, `Bytes.dfy`, `Numbers.dfy` | shared types; bytes; 16 and 32-bit numbers, and numbers as text, with `tdparse` |
| `PacketCipher.dfy`, `PacketCodec.dfy` | the scrambling of packets; base-253 numbers, `PacketBuilder`, `PacketReader` |
| `Ring.dfy`, `Deframer.dfy`, `WireStack.dfy` | the socket's ring buffers; the deframing state machine; all layers together |
| `Upload.dfy` | file uploads through a second send buffer |
| `Sequence.dfy` | the sequence-number handshake between the server and a peer that follows the rules |
| `Sha256.dfy`, `Sha256Constants.dfy`, `Sha256Example.dfy` | streaming SHA-256 against FIPS 180-4; what its constants are; the standard's example, computed |
| `MapView.dfy` | who sees whom while characters and NPCs walk and are warped |
| `ItemStores.dfy`, `ItemSteps.dfy`, `ItemMoves.dfy`, `ItemWorld.dfy`, `ItemObjects.dfy` | item stores, the handlers as functions, what each moves from where to where, whole runs, and the mutable objects with the handlers as the source writes them |
| `GroundUids.dfy` | the numbering of the items on the ground |
| `Wedding.dfy`, `NpcLedger.dfy`, `Arena.dfy`, `Party.dfy` | the wedding ceremony, NPC damage ledgers, arena occupancy, party experience |
| `Serializers.dfy`, `QuestProgress.dfy`, `WordWrap.dfy` | save strings and word wrapping |

Where the source updates something in place, the model is a class with those fields; its methods are proved against
specification functions, and the theorems are about those functions or about the invariant every method keeps.
Frames, sizes and widths that can wrap in the source wrap here (bytes, shorts, 32-bit numbers, the 64-bit message
length); where a value is an unbounded `int`, the bound that makes this exact is in the contract or named below.

Several things the code is meant to do it does only under a condition. The condition is proved exact each time:

- A packet survives scrambling exactly if its wound body does not start with 0 or 128 in one of the first two bytes and
  does not encode to 255, 255 (`PacketCipher.RoundTrip`; `ChairPacketForPlayer127` is a packet that does not).
- If the second length byte is a multiple of the key, the run through it reaches into the header. The header survives
  exactly if that run's reversal leaves its two bytes alone (`HeaderSurvives`), and header and body both survive exactly
  if, besides, the run repeats itself - with 0 and 128 exchanged in the body's first two places, and those of the two
  that the run does not reach neither 0 nor 128 - and the body does not encode to 255, 255 (`RoundTripThroughHeader`).
  For keys that do not divide 128 that is a symmetric run and a clean start (`BodyKeptByOddKeys`); with key 8 a packet can
  survive without (`UncleanButKept`). A long board post can lose its header (`WireStack.LongPostLosesItsHeader`).
- A four-byte field keeps a number exactly below 253^4, or from 254 * 253^3 up to but not including 255 * 253^3
  (`PacketCodec.IntField`).
- A break string read at the very end of a packet, and only that, leaves the position behind the end
  (`PacketCodec.PositionStaysInside`); from there a string throws and a number or byte is read out of bounds
  (`PacketCodec.PacketReader`).
- A failed socket write leaves the ring broken unless nothing or one full lap was offered (`Rings.FailedSendBreaksRing`,
  `Rings.ThreeBytesAreBroken`).
- The test that a buffer size is a power of two ends exactly if the size is not 0 (`Rings.StopsUnlessZero`).
- A map that is patched while it is uploaded misses one byte exactly if a read starts right before it
  (`Upload.PieceIsPatched`, `Upload.FifthByteMissed`). The peer can read an uploaded file as a frame of its own exactly if
  what had been sent by then ends with a frame and header and file stay below 253^2 bytes (`WireStack.UploadReadExactly`);
  a frame that had been sent in part swallows the first bytes of the upload (`WireStack.CutFrameSwallows`).
- The upload buffer is one byte short exactly for a non-map file whose size plus six is a power of two not below the size
  of the old buffer (`Upload.Sender.StartUpload`, `Upload.SixBytesShorter`). The last byte of such a file is written behind
  the buffer, and a 0 is sent in its place (`Upload.Sender.Tick`).
- An item total stays the same over a run exactly if no step meets a limit (`ItemWorld.Conservation`); the death drop keeps the
  total of every id exactly if every worn id is at most 32767 or kept (`ItemWorld.DropAllExact`); a ground uid wraps above 32767
  (`ItemStores.DropKeepsUids`).
- Who is in an NPC's ledger, and whose list names the NPC, stay right whatever overflows (`NpcLedger.Npc.Damage`,
  `NpcLedger.Character.Logout`). A hit keeps the NPC's damage total equal to its ledger exactly if the new total fits 32
  bits, or the attacker's own entry overflows with it (`NpcLedger.HitKeepsSum`, `NpcLedger.FullTotalMissesAHit`).
- A hit made with two in an arena that meets somebody leaves none, unless the attacker hits himself. He does exactly if
  he faces no real direction and nobody of the arena comes before him in the map's list on his tile
  (`Arenas.Arena.Attack`, `Arenas.HitWithDirectionSeven`). Somebody first on several spawns is warped out again
  (`Arenas.Arena.Spawn`).
- Views on a map stay exact over a step, except for the step down from row 255, which lands on the top row
  (`MapView.Map.Walk`); nobody inside a map stands there (`MapView.DownWraps`).
- Word wrapping returns exactly if no glyph is wider than a line (`WordWrap.ReturnsIffEverythingFits`).
- A paperdoll is read back exactly if all ids are in range, and a last slot out of range makes the reader write behind
  the array (`Serializers.DollSurvives`); ranks survive exactly without commas (`Serializers.RanksSurvive`); a quest
  value survives exactly if it is not negative, or -18928 (`QuestProgress.ValueSurvives`).

## Model

| member | source | states |
|---|---|---|
| `PacketCipher.PacketProcessor.DickWinder` | src/packet.cpp:227-268 | the buffering loop reverses every maximal run of multiples of the key in place, and does nothing for key 0 |
| `PacketCipher.WoundInvolution` | src/packet.cpp:227-268 | winding twice is the identity |
| `PacketCipher.WoundPermutes` | src/packet.cpp:227-268 | winding keeps the multiset of bytes |
| `PacketCipher.RunsReversedSplit` | src/packet.cpp:227-268 | the string can be wound in two parts at any place that does not cut a run |
| `PacketCipher.DeinterleaveInterleave` | src/packet.cpp:131-225 | the two index loops of encoding and decoding undo each other |
| `PacketCipher.PacketProcessor.Mix` | src/packet.cpp:177-225 | the in-place loops of Encode compute header, then interleaved and flipped body |
| `PacketCipher.PacketProcessor.Encode` | src/packet.cpp:177-225 | refines the encoding specification, INIT packets and key 0 included |
| `PacketCipher.PacketProcessor.Decode` | src/packet.cpp:131-175 | refines the decoding specification, bodies starting 255, 255 included |
| `PacketCipher.WireByte` | src/packet.cpp:177-225 | place by place, which byte of the wound packet goes out: the header as it is, then front and back half in turn with the top bit changed, except in 0 and 128 |
| `PacketCipher.ReadByte` | src/packet.cpp:131-175 | place by place, which byte of a body comes to stand where before it is wound back, likewise |
| `PacketCipher.SentAsItIs` | src/packet.cpp:131-190 | an INIT packet, and anything with key 0, is sent and read unchanged |
| `PacketCipher.HeaderStandsAlone` | src/packet.cpp:177-268 | a second length byte that is no multiple of the key keeps header and body apart |
| `PacketCipher.RoundTrip` | src/packet.cpp:131-283 | the header is sent as it is, and decoding gives the body back if and only if the wound body starts clean and does not look like INIT |
| `PacketCipher.HeaderSurvives` | src/packet.cpp:177-268 | with a second length byte that is a multiple of the key, the header is sent as it is if and only if reversing the run leaves its bytes alone |
| `PacketCipher.RoundTripThroughHeader` | src/packet.cpp:131-283 | and header and body survive if and only if, besides, the reversal keeps the body up to the masking of its first two bytes and it does not look like INIT |
| `PacketCipher.SurvivesExactly` | src/packet.cpp:131-283 | for every packet and every key: header and body survive if and only if the key is 0, the packet is INIT, or - depending on the second length byte - one of the two conditions above holds |
| `PacketCipher.BodyKeptByOddKeys` | src/packet.cpp:131-283 | for keys that do not divide 128, keeping the body is a symmetric run and a clean start |
| `PacketCipher.UncleanButKept` | src/packet.cpp:131-283 | a packet that survives with key 8 though it does not start clean |
| `PacketCipher.ChairPacketForPlayer127` | src/handlers/Chair.cpp:147-152 | no chair packet that names player 127 is read back with key 8 |
| `PacketCipher.LongPacketLosesItsHeader` | src/packet.cpp:177-268 | every packet of 1276 framed bytes whose action is no multiple of 6 has its length bytes exchanged by key 6 |
| `PacketCodec.ENumber` | src/packet.cpp:306-353 | the loop produces the base-253 digits, unused ones 254 |
| `PacketCodec.DigitsInBase253` | src/packet.cpp:306-353 | the bytes of a number are its digits in base 253, lowest first, each plus one, and 254 above the leading one |
| `PacketCodec.DigitsRead` | src/packet.cpp:286-304 | a byte counts one less in its place, 254 nothing and 0 as 127 |
| `PacketCodec.ShortFields` | src/packet.cpp:286-353 | one, two and three bytes read back as the number modulo 253, 253^2, 253^3 |
| `PacketCodec.IntField` | src/packet.cpp:286-353 | four bytes read back as the number if and only if it is below 253^4, or at least 254 * 253^3 and below 255 * 253^3 |
| `PacketCodec.PositionStaysInside` | src/packet.cpp:398-469 | a reading moves the position behind the end if and only if it reads a break string at the very end |
| `PacketCodec.FieldReadBack` | src/packet.cpp:398-469 | one field of any kind is read back between any neighbours, a break string with 255 softened |
| `PacketCodec.FieldsReadBack` | src/packet.cpp:398-700 | every list of fields is read back in order |
| `PacketCodec.PacketBuilder.AddByte` | src/packet.cpp:538-552 | appends the byte and keeps the rest |
| `PacketCodec.PacketBuilder.AddInt` | src/packet.cpp:602-616 | appends the four-byte field |
| `PacketCodec.PacketBuilder.AddBreakString` | src/packet.cpp:648-673 | appends the text with every 255 replaced by 'y', and a 255 |
| `PacketCodec.PacketBuilder.Get` | src/packet.cpp:686-700 | length, id and data, the announced size included in the length |
| `PacketCodec.PacketLayout` | src/packet.cpp:686-700 | behind the length come action, family and data |
| `PacketCodec.LengthHeader` | src/packet.cpp:686-700 | the two length bytes read back as the length if and only if it is below 253^2 |
| `PacketCodec.LengthByteOutOfRuns` | src/packet.cpp:686-700 | below 1265 framed bytes the second length byte is no multiple of the keys 6 to 12 |
| `PacketCodec.PacketReader.GetNumber` | src/packet.cpp:398-415 | reads what is left of a number field and moves on; from behind the end it reads out of bounds |
| `PacketCodec.PacketReader.GetByte` | src/packet.cpp:417-426 | likewise for a byte |
| `PacketCodec.NothingLeft` | src/packet.cpp:398-464 | at the end of the data there are zeros and the empty string |
| `PacketCodec.PacketReader.GetFixedString` | src/packet.cpp:448-457 | a string of that length or nothing; from behind the end it throws |
| `PacketCodec.PacketReader.GetBreakString` | src/packet.cpp:459-464 | reads up to the next 255 and moves behind it; from behind the end it throws |
| `Rings.StopsUnlessZero` | src/socket.cpp:292-301 | the shifting loop ends if and only if the size is not 0 |
| `Rings.AssertPowerOfTwo` | src/socket.cpp:292-301 | on any size, after any number of turns: accepted only a power of two, refused only something else, or still running |
| `Rings.MaskWraps` | src/socket.cpp:357-449 | masking a position is taking it modulo the capacity |
| `Rings.Ring.Append` | src/socket.cpp:376-424 | the storing loop appends all of the data to the queue |
| `Rings.Ring.Recv` | src/socket.cpp:357-374 | takes the first bytes off the queue |
| `Rings.Ring.DoSend` | src/socket.cpp:426-449 | the roll-back removes exactly the bytes written from the front; after an error the position stays advanced |
| `Rings.FailedSendBreaksRing` | src/socket.cpp:426-449 | when a failed write leaves positions that fit together, exactly |
| `Rings.ThreeBytesAreBroken` | src/socket.cpp:426-449 | an instance in which they do not |
| `Deframer.UniqueReading` | src/eoclient.cpp:150-208 | a byte stream of well-formed frames has only one reading |
| `Deframer.Receiver.DoRecv` | src/socket.cpp:395-424 | a chunk that fits is queued whole |
| `Deframer.Receiver.Tick` | src/eoclient.cpp:150-208 | a tick keeps the three-state machine consistent with everything received |
| `Deframer.Receiver.Consume` | src/eoclient.cpp:150-208 | one turn of the byte loop hands over a frame exactly when its last byte is there |
| `Deframer.FramesDelivered` | src/eoclient.cpp:150-208 | for any chunks and ticks, the packets executed are a prefix of the frames sent, and partial data, ring and bytes to come are exactly the rest |
| `Deframer.CaughtUp` | src/eoclient.cpp:150-208 | when everything arrived and the ring is empty, all frames were executed |
| `WireStack.DeliverableExactly` | src/packet.cpp:131-283 | for every message and every key: the length announced is right, reaches the wire, and the body is read back, if and only if the packet is below 253^2 framed bytes and survives the cipher |
| `WireStack.ShortMessages` | src/packet.cpp:131-283 | below 1265 framed bytes and with the keys 6 to 12, that is a clean wound body or an INIT packet |
| `WireStack.OnWireDecodes` | src/packet.cpp:131-283 | a built, encoded packet that is deliverable is a well-formed frame that decodes to the packet |
| `WireStack.EndToEnd` | src/eoclient.cpp:150-208 | for all deliverable messages and any key: builder, cipher, frames, ring and reader together: the fields read are the fields written, in order, nothing lost or invented |
| `WireStack.LongPostLosesItsHeader` | src/handlers/Board.cpp:151-154 | a board post of 1272 characters, encoded with key 6, announces 2788 bytes instead of 1276 |
| `WireStack.UploadHeaderReads` | src/eoclient.cpp:391-399 | the length in an upload's header is right if and only if header and file stay below 253^2 |
| `WireStack.HeaderReads` | src/eoclient.cpp:391-399 | the peer's reader gets INIT, the reply code and, but for maps, a 1 out of the header |
| `WireStack.UploadBetweenFrames` | src/eoclient.cpp:376-404 | an upload that starts when whole frames have been sent is one more frame among them |
| `WireStack.UploadReadExactly` | src/eoclient.cpp:352-406 | in the order of bytes in which an upload leaves things, the peer can read the file as a frame that begins where the bytes sent before end, if and only if those are whole frames and header and file stay below 253^2 |
| `WireStack.CutFrameSwallows` | src/eoclient.cpp:352-406 | a frame sent in part, its length included, is filled up with the first bytes of what follows, and intact if and only if those are its missing ones |
| `Upload.BufferSize` | src/eoclient.cpp:376-379 | doubling gives the least power of two from the current size that holds the file and six bytes; when it holds no more, exactly |
| `Upload.Sender.Send` | src/eoclient.cpp:408-441 | a packet is queued whole, behind the file during an upload, or the connection is closed |
| `Upload.Sender.StartUpload` | src/eoclient.cpp:352-406 | pending bytes move behind header and file; when the buffer will be large enough, exactly, from the sizes before the call |
| `Upload.Sender.ExchangeBuffers` | src/eoclient.cpp:376-405 | the new buffer holds the header; its room condition, likewise |
| `Upload.SixBytesShorter` | src/socket.cpp:624 | an instance: 32762 bytes in the buffer of 32 kilobytes |
| `Upload.PieceIsPatched` | src/eoclient.cpp:113-124 | a read of any length at any place delivers the patched bytes, except that one is missed if and only if the read starts at it |
| `Upload.PatchChanges` | src/eoclient.cpp:113-124 | exactly which bytes of a map are changed, and to what |
| `Upload.Sender.PatchPiece` | src/eoclient.cpp:113-124 | the map bytes of a piece are overwritten where they fall |
| `Upload.FifthByteMissed` | src/eoclient.cpp:113-124 | an instance: the same byte in a read from the start and in one that starts with it |
| `Upload.Sender.ReadFile` | src/eoclient.cpp:107-129 | what the file delivers is appended to the live queue; in a buffer that header and file fill exactly, the last byte falls behind it and a 0 is queued instead |
| `Upload.Sender.Tick` | src/eoclient.cpp:98-149 | reads of any length and the swap back keep the one order of all bytes, but for the byte missed and for the last byte in a buffer filled exactly; after the swap the old ring holds exactly what waited |
| `Upload.Sender.DoSend` | src/socket.cpp:426-449 | what goes out is the next part of that order |
| `Sequence.InitBytesExact` | src/eoclient.cpp:212-246 | for every start, the admitted first bytes are exactly those for which both bytes are 0 to 252 and 7 s1 + s2 - 13 is the start |
| `Sequence.UpdateReads` | src/eoclient.cpp:248-257 | the update read back gives s1 - s2, the start |
| `Sequence.UpdateFields` | src/eoclient.cpp:248-257 | it is a short and a char: start plus a random number, and that number |
| `Sequence.SeqFieldReads` | src/eoclient.cpp:302-331 | the server reads the sequence field a peer wrote, in one byte or two |
| `Sequence.SeqFieldSize` | src/eoclient.cpp:313-316 | one byte below 253, two from there |
| `Sequence.RestReads` | src/eoclient.cpp:302-331 | and what follows the number is what the peer put there |
| `Sequence.CountsModuloTen` | src/eoclient.cpp:259-266 | the counter after any number of packets |
| `Sequence.Sequencer.GetSeqInitBytes` | src/eoclient.cpp:237-246 | the random bytes drawn are admitted ones |
| `Sequence.Sequencer.GenSequence` | src/eoclient.cpp:259-266 | the counter modulo ten on top of the start |
| `Sequence.Sequencer.Ping` | src/eoserver.cpp:31-57 | either the announcement of a new start, or the closing of a client that owes a pong |
| `Sequence.Sequencer.Check` | src/eoclient.cpp:302-331 | a packet passes exactly if its number is the expected one, the pong with the new start; with enforcement off everything passes |
| `Sequence.Sequencer.PongHandled` | src/handlers/Connection.cpp:32-44 | the right reply clears the owed pong, any other closes the connection |
| `Sequence.StepKeepsInv` | src/eoclient.cpp:212-331 | every step of server, peer and channels keeps: reading all packets in flight brings the server to the peer's counters |
| `Sequence.NeverOutOfSequence` | src/eoclient.cpp:212-331 | in every run no mismatch is seen, and at most one new start is under way |
| `Sequence.NumbersInTurn` | src/eoclient.cpp:259-331 | the packets a peer sends in a row carry its start plus a counter that goes on modulo ten |
| `Sequence.PingPong` | src/eoserver.cpp:31-57 | a ping from announcement to handled reply leaves the new start on both sides |
| `Sequence.ClosedOnlyFor` | src/eoserver.cpp:31-57 | a connection is closed exactly by a ping while a pong is owed, or by a reply that is no k |
| `Sha256.ChooseRewritten` | src/sha256.c:88-128 | the rewritten choice is the standard's Ch |
| `Sha256.MajorityRewritten` | src/sha256.c:88-128 | the rewritten majority is the standard's Maj |
| `Sha256.RoundInPlace` | src/sha256.c:88-128 | shifting the registers in place is the standard's simultaneous round |
| `Sha256.ExpandBlock` | src/sha256.c:88-128 | the message schedule |
| `Sha256.Context.Process` | src/sha256.c:88-128 | one block is compressed into the state |
| `Sha256.Context.Update` | src/sha256.c:130-160 | feeding a piece of any length keeps state and buffer those of everything fed |
| `Sha256.Context.Finish` | src/sha256.c:162-203 | padding, with one block or two, gives the digest of everything fed |
| `Sha256.PaddingPieces` | src/sha256.c:162-203 | what is fed at the end is the standard's padding |
| `Sha256.HashPieces` | src/sha256.c:76-203 | for every message below 2^61 bytes and every way of cutting it, the digest is the one of FIPS 180-4 |
| `Sha256Constants.RoundConstants` | src/sha256.c:31-48 | each of the 64 constants is the first 32 bits of the fraction of the cube root of its prime |
| `Sha256Constants.InitialWords` | src/sha256.c:50-53 | each initial word is that of the square root |
| `Sha256Example.AbcDigest` | src/sha256.c:76-203 | the digest of "abc", as the standard's example has it |
| `MapView.EdgeFormulas` | src/map.cpp:1026-1143 | the coordinate formulas name a tile exactly if it enters or leaves the diamond of sight |
| `MapView.Edges` | src/map.cpp:1026-1143 | the loop's two lists are the two diamond differences, without repeats |
| `MapView.EdgeLists` | src/map.cpp:1026-1143 | lists built by the formulas have those members and no repeats |
| `MapView.TargetIsNeighbour` | src/map.cpp:917-1010 | the 8-bit target that passes the wrap test is the neighbouring tile if and only if it is not the step down from row 255 |
| `MapView.DownWraps` | src/map.cpp:917-1010 | that step wraps, and nobody inside a map makes it |
| `MapView.Map.ScanCharacters` | src/map.cpp:1026-1143 | who stands on the edges, each once |
| `MapView.Map.ScanItems` | src/map.cpp:1121-1131 | the ground items on the tiles that come into sight, in order |
| `MapView.AppearingMeans` | src/map.cpp:1121-1131 | those are the items in sight now and not before |
| `MapView.Map.Walk` | src/map.cpp:917-1279 | a character's step, refusal or warp keeps every view equal to the distance test, on this map and the one warped to; when each happens, exactly |
| `MapView.Map.Leave` | src/map.cpp:839-873 | whoever sees somebody leave drops him, and nobody keeps him |
| `MapView.Map.Enter` | src/map.cpp:789-837 | a newcomer is known at once to exactly those in sight |
| `MapView.Map.WarpTo` | src/character.cpp:1209-1296 | leaving and entering, on two maps or one, keep every view exact but the walker's own, who is arriving |
| `MapView.Map.WarpAccept` | src/handlers/Warp.cpp:24-75 | whose view is exact again when his client has asked |
| `MapView.Map.Refresh` | src/character.cpp:1310-1345 | a view is exact afterwards whatever it was before |
| `MapView.Map.UpdateNpcViews` | src/map.cpp:1352-1466 | an NPC's step tells exactly those who begin or cease to see it |
| `MapView.Map.WalkNpc` | src/map.cpp:1281-1466 | an NPC's step keeps every view exact |
| `MapView.InDiamondSymmetric` | src/util.hpp:109-115 | seeing is mutual |
| `ItemStores.AddedCounts` | src/character.cpp:720-760 | what adding does to every item's count, overflow and limits included |
| `ItemStores.RemovedCounts` | src/character.cpp:762-811 | what removing does to every item's count |
| `ItemStores.NoOverflow` | src/character.cpp:720-760 | adding loses nothing exactly within the limit |
| `ItemStores.ChestAddedCounts` | src/map.cpp:189-251 | what a chest accepts, it holds |
| `ItemStores.ChestRemovedCounts` | src/map.cpp:282-319 | what a chest gives, it no longer holds |
| `ItemStores.LeastFreeBound` | src/map.cpp:759-772 | the least free uid is at most one above the number of items |
| `ItemStores.DropKeepsUids` | src/map.cpp:2228-2273 | uids stay positive and distinct after a drop; positive exactly if the new one fits a short |
| `ItemStores.PickKeepsUids` | src/map.cpp:2301-2381 | uids stay distinct when something is taken |
| `GroundUids.ChangeKeepsNumbers` | src/map.cpp:2228-2381 | a change keeps uids distinct and positive if and only if it adds nothing to a list of 32767 |
| `GroundUids.EveryItemHasItsUid` | src/map.cpp:2228-2381 | over every run of drops, takings and deletions every item keeps a uid of its own |
| `ItemWorld.DropAccounts` | src/handlers/Item.cpp:349-426 | a drop moves the amount to the ground, or loses it on a full tile or map |
| `ItemWorld.GetAccounts` | src/handlers/Item.cpp:453-490 | picking up moves what can be held, and loses what overflows |
| `ItemWorld.ChestAddAccounts` | src/handlers/Chest.cpp:23-77 | putting into a chest loses nothing |
| `ItemWorld.ChestTakeAccounts` | src/handlers/Chest.cpp:79-125 | taking from a chest, with what overflows |
| `ItemWorld.LockerAddAccounts` | src/handlers/Locker.cpp:47-106 | putting into a locker, with what is cut off |
| `ItemWorld.LockerTakeAccounts` | src/handlers/Locker.cpp:108-156 | taking from a locker, with what overflows |
| `ItemWorld.BankAddAccounts` | src/handlers/Bank.cpp:51-79 | depositing gold loses none |
| `ItemWorld.BankTakeAccounts` | src/handlers/Bank.cpp:81-104 | withdrawing gold, with what overflows |
| `ItemWorld.EquipAccounts` | src/character.cpp:1061-1172 | wearing keeps every total |
| `ItemWorld.UnequipAccounts` | src/character.cpp:1037-1059 | taking off keeps every total but for what overflows |
| `ItemWorld.DropAllAccounts` | src/character.cpp:1659-1777 | dying loses no item; only lore items stay carried, only lore, cursed and wide ones worn |
| `ItemWorld.DropAllCounts` | src/character.cpp:1659-1777 | of every id, what appears is one for every worn wide id not kept that is cut to it |
| `ItemWorld.DropAllExact` | src/character.cpp:1659-1777 | dying keeps the total of every id if and only if every worn id is at most 32767 or kept |
| `ItemWorld.WideIdsAreNotDropped` | src/character.cpp:1705-1777 | a worn id above 32767 stays worn and one item of the id less 65536 appears; of what is carried at most one of that id goes, and none when only lore items are left |
| `ItemWorld.LostIffLimitBinds` | src/handlers/Item.cpp:349-490 | an action loses something exactly if a limit stands in its way |
| `ItemMoves.AcceptedIs` | src/character.cpp:720-760 | how many an inventory takes in: none, all, or up to the limit |
| `ItemMoves.OnTileMeans` | src/map.cpp:2228-2250 | the count of a tile is that of the items on it |
| `ItemMoves.DropMoves` | src/handlers/Item.cpp:349-426 | store by store, when and what a drop takes from the inventory and puts on which tile |
| `ItemMoves.JunkMoves` | src/handlers/Item.cpp:428-451 | junking takes from the inventory alone |
| `ItemMoves.GetMoves` | src/handlers/Item.cpp:453-490 | picking up takes what can be held from the ground, and the inventory gets what it accepts |
| `ItemMoves.LetsInIs` | src/map.cpp:189-251 | when a chest lets how many in |
| `ItemMoves.ChestAddMoves` | src/handlers/Chest.cpp:23-77 | the first chest on the tile gets what the inventory gives, all or none |
| `ItemMoves.ChestTakeMoves` | src/handlers/Chest.cpp:79-125 | the first one with such an item gives what can be held |
| `ItemMoves.NoChestNoMove` | src/handlers/Chest.cpp:23-125 | without a chest, or without room, nothing moves |
| `ItemMoves.LockerAddMoves` | src/handlers/Locker.cpp:47-106 | what a deposit takes from the inventory and what the locker gets, and when |
| `ItemMoves.LockerTakeMoves` | src/handlers/Locker.cpp:108-156 | likewise for a withdrawal |
| `ItemMoves.BankAddMoves` | src/handlers/Bank.cpp:51-79 | gold asked for and carried goes from inventory to account if the account can hold it, else none |
| `ItemMoves.BankTakeMoves` | src/handlers/Bank.cpp:81-104 | gold asked for goes from account to inventory if there is that much, else none |
| `ItemMoves.EquipMoves` | src/character.cpp:1061-1172 | one item goes from the inventory to the slot if it is free |
| `ItemMoves.UnequipMoves` | src/character.cpp:1037-1059 | one goes from the first matching slot to the inventory |
| `ItemMoves.NotWornNotTaken` | src/character.cpp:1037-1059 | without such a slot nothing happens |
| `ItemMoves.DropAllMoves` | src/character.cpp:1659-1777 | store by store, what a death takes, what it leaves worn, and what it puts on the one tile |
| `ItemWorld.StepAccounts` | src/character.cpp:720-831 | a step changes an item's total by exactly what it loses |
| `ItemWorld.Conservation` | src/character.cpp:720-831 | over every run no item becomes more, and its total stays the same if and only if no step met a limit for it |
| `ItemObjects.Character.AddItem` | src/character.cpp:720-760 | the loop over the inventory refines the specification |
| `ItemObjects.Character.DelItem` | src/character.cpp:762-789 | likewise for removal |
| `ItemObjects.Character.UnequipItem` | src/character.cpp:1037-1059 | likewise for taking off |
| `ItemObjects.MapChest.AddItem` | src/map.cpp:189-251 | likewise for chests, slots and limits included |
| `ItemObjects.MapChest.DelSomeItem` | src/map.cpp:282-319 | likewise |
| `ItemObjects.Map.GenerateItemID` | src/map.cpp:759-772 | the restarting loop ends with the least free uid |
| `ItemObjects.Map.AddItem` | src/map.cpp:2228-2273 | an item on the ground, or nothing stored on a full tile or map |
| `ItemObjects.Map.DelSomeItem` | src/map.cpp:2331-2381 | part or all of an item leaves the ground |
| `ItemObjects.ItemDrop` | src/handlers/Item.cpp:349-426 | the handler refines the drop |
| `ItemObjects.ItemJunk` | src/handlers/Item.cpp:428-451 | the handler refines the junking |
| `ItemObjects.ItemGet` | src/handlers/Item.cpp:453-490 | the handler refines the picking up |
| `ItemObjects.ChestAddHandler` | src/handlers/Chest.cpp:23-77 | the handler refines the chest deposit |
| `ItemObjects.ChestTakeHandler` | src/handlers/Chest.cpp:79-125 | the handler refines the chest withdrawal |
| `ItemObjects.LockerAddHandler` | src/handlers/Locker.cpp:25-106 | the handler refines the locker deposit |
| `ItemObjects.LockerTakeHandler` | src/handlers/Locker.cpp:108-156 | the handler refines the locker withdrawal |
| `ItemObjects.BankAddHandler` | src/handlers/Bank.cpp:51-79 | the handler refines the gold deposit |
| `ItemObjects.BankTakeHandler` | src/handlers/Bank.cpp:81-104 | the handler refines the gold withdrawal |
| `ItemObjects.DropAllHandler` | src/character.cpp:1659-1777 | the loops at death refine the dropping of everything |
| `Wedding.Wedding.Tick` | src/wedding.cpp:128-384 | one call, entering a state or between events, does what the table of the ceremony says, and nobody absent is ever used |
| `Wedding.Wedding.VowTick` | src/wedding.cpp:187-269 | the four states of the vows, likewise |
| `Wedding.Wedding.NextState` | src/wedding.cpp:69-82 | moves on, or calls off or cuts short if somebody is missing |
| `Wedding.Wedding.Check` | src/wedding.cpp:84-102 | true exactly if couple and priest are there; otherwise the wedding is over |
| `Wedding.Wedding.StartWedding` | src/wedding.cpp:401-416 | starts only an idle wedding |
| `Wedding.Wedding.IDo` | src/wedding.cpp:423-439 | only the partner asked, in his state, moves the ceremony on |
| `Wedding.StepSettles` | src/wedding.cpp:128-439 | every event keeps state, tick and timer in bounds |
| `Wedding.ComesToAnEnd` | src/wedding.cpp:128-439 | whatever happens, a wedding is over within the ticks its state has left |
| `Wedding.EightyEightTicks` | src/wedding.cpp:128-439 | from its start that is 88 ticks |
| `Wedding.OnlyStateEightMarries` | src/wedding.cpp:128-384 | an event marries somebody if and only if it leads from state 7 to 8 |
| `Wedding.MarriedOnlyAfterBothVows` | src/wedding.cpp:128-439 | state 8 is reached only after the start that named the couple, then the vow of the first partner in state 4, then that of the second in state 6, without a stop |
| `Wedding.AskedWhenAwaited` | src/wedding.cpp:187-269 | a partner is asked for the vow exactly where the same partner's "I do" moves the ceremony on |
| `Wedding.SpokenByWhoGaveIt` | src/wedding.cpp:212-265 | the first partner's vow is spoken in state 5, the second's in 7 |
| `Wedding.HeardOnlyWhenAsked` | src/wedding.cpp:423-439 | whose "I do" changes anything, and when |
| `Wedding.WholeCeremony` | src/wedding.cpp:128-416 | with everybody there and both vows given: everything said and done, in order, with both names, in 68 ticks |
| `Wedding.MissingEnds` | src/wedding.cpp:84-102 | exactly when somebody missing ends the ceremony, and with which words |
| `Wedding.VowTimesOut` | src/wedding.cpp:187-250 | a vow not given in 13 ticks calls it off |
| `NpcLedger.GrownUnlessOverflow` | src/npc.cpp:452-453 | the source's test refuses exactly the sums that do not fit 32 bits |
| `NpcLedger.HitKeepsSum` | src/npc.cpp:433-478 | a hit keeps the total equal to the ledger if and only if the total fits 32 bits or the entry overflows with it |
| `NpcLedger.FullTotalMissesAHit` | src/npc.cpp:452-478 | an instance in which it does not |
| `NpcLedger.HitKeepsLedger` | src/npc.cpp:455-478 | whatever overflows, everybody is listed once, and exactly the attacker is added |
| `NpcLedger.HitIsDealt` | src/npc.cpp:455-478 | the hit is put down to the attacker, if it fits, and to nobody else |
| `NpcLedger.ForgettingKeepsDrift` | src/character.cpp:2233-2244 | a logout keeps what total and ledger differ by, modulo 2^32: equal before if and only if equal afterwards, for a ledger that fits 32 bits |
| `NpcLedger.WithoutForgets` | src/character.cpp:2233-2244 | taking somebody out leaves exactly the others |
| `NpcLedger.Npc.Enter` | src/npc.cpp:452-478 | the loop credits the entry of the attacker or adds one, with the 32-bit tests, and registers the NPC with a new attacker |
| `NpcLedger.Npc.Damage` | src/npc.cpp:433-512 | a hit keeps ledgers and lists naming each other whatever overflows, changes only its own NPC's ledger, and keeps the total equal to it under exactly that condition; a deadly one kills it and, if it is a boss, the living children on its map, and nobody else |
| `NpcLedger.Npc.Struck` | src/map.cpp:1555-1595 | so does an attack with any roll, which is never negative by then, against a living NPC |
| `NpcLedger.Npc.ClearLedger` | src/npc.cpp:883-892 | the ledger is empty and nobody online still has the NPC on his list |
| `NpcLedger.Npc.Killed` | src/npc.cpp:883-954 | a death keeps ledgers and lists naming each other; NPC by NPC, who dies with a boss - living children on its map that are no boss - and who stays as he was; the temporary ones among the dead leave the map |
| `NpcLedger.Npc.Die` | src/npc.cpp:956-1007 | likewise for a death without a killer |
| `NpcLedger.Npc.Destroy` | src/npc.cpp:1127-1145 | an NPC can be deleted without leaving a trace |
| `NpcLedger.Character.Logout` | src/character.cpp:2191-2248 | whatever had overflowed, nobody's ledger names somebody who logged out; every total is less by what he dealt, and those that added up still do |
| `Arenas.Character.Warp` | src/character.cpp:1209-1307 | a warp keeps every arena's count the number of people online in it; a refused one changes nothing |
| `Arenas.Character.Logout` | src/character.cpp:2191-2248 | so does a logout |
| `Arenas.NewcomerCounts` | src/character.cpp:465-466 | so does a login |
| `Arenas.Arena.Spawn` | src/arena.cpp:39-114 | a round puts in exactly those first on one spawn, where that one leads; those first on several end up outside, where the last of them leads; counts stay exact |
| `Arenas.Arena.CountedAndWarped` | src/arena.cpp:41-100 | the number announced is at least that of the warps, and zero only with it |
| `Arenas.Arena.FateMeans` | src/arena.cpp:66-114 | the warps of somebody are as many as the spawns he is first on, and the last says where he ends up |
| `Arenas.Arena.StandingCounts` | src/arena.cpp:41-52 | the counting loop counts everybody on a spawn |
| `Arenas.Arena.Attack` | src/arena.cpp:116-210 | a hit removes the first one exposed on the tile the direction names, with two occupants the attacker too; then none is left if and only if the attacker is not the one he hits, which is decided by direction and list order before the call |
| `Arenas.HitWithDirectionSeven` | src/arena.cpp:116-210 | an instance: of two occupants one is left |
| `Parties.NothingIsLost` | src/party.cpp:149-199 | the rewards of modes 1 and 2 add up to at least the experience and to less than one more each |
| `Parties.Party.ShareEXP` | src/party.cpp:149-218 | those able to fight, on the map and not dead get a share each, equal or by level and rounded up, within those bounds together; they gain one level at most; nobody else gets or gains anything |
| `Parties.Member.Gain` | src/party.cpp:199-214 | at most one level per share |
| `Numbers.TdParse` | src/util.cpp:121-195 | the loop reads any text as the specification does: units, percents, fractions, signs |
| `Numbers.DurationsMean` | src/util.cpp:121-195 | amounts with units, in any number and order and with any decimals, are read as what they come to |
| `Numbers.PrintedIsRead` | src/util.cpp:236-239 | every integer printed is read back |
| `Numbers.PrintedText` | src/util.cpp:236-239 | instances of how numbers are printed |
| `Serializers.ExplodeText` | src/util.cpp:87-102 | the loop cuts at every delimiter |
| `Serializers.JoinExplode` | src/util.cpp:87-102 | the pieces joined are the text |
| `Serializers.ExplodeJoin` | src/util.cpp:87-102 | pieces without the delimiter come back from their joined text |
| `Serializers.PairsSerialize` | src/character.cpp:62-75 | the text of an item or spell list |
| `Serializers.TwoEntries` | src/character.cpp:62-75 | an instance |
| `Serializers.PairsUnserialize` | src/character.cpp:77-109 | reads any text, skipping what has no comma or is out of range |
| `Serializers.AnyPairIsRead` | src/character.cpp:77-197 | which two numbers are taken as an entry, and as which |
| `Serializers.PairsSurvive` | src/character.cpp:62-197 | item and spell lists come back without the entries that cannot be read, and otherwise unchanged |
| `Serializers.DollUnserialize` | src/character.cpp:124-149 | reads any text into fifteen slots, or writes behind them |
| `Serializers.ThreeSlots` | src/character.cpp:111-122 | an instance of a doll's text |
| `Serializers.DollSurvives` | src/character.cpp:111-149 | a doll comes back if and only if all ids are in range; an out of range last slot is written behind the array |
| `Serializers.RankUnserialize` | src/guild.cpp:43-62 | reads any text into nine ranks |
| `Serializers.RanksSurvive` | src/guild.cpp:30-62 | nine ranks come back if and only if none contains a comma |
| `QuestProgress.SerializeProgress` | src/quest.cpp:978-997 | the text of a progress |
| `QuestProgress.TwoGoals` | src/quest.cpp:978-997 | an instance |
| `QuestProgress.QuestContext.UnserializeProgress` | src/quest.cpp:999-1047 | the character loop reads any text, with 16-bit arithmetic, into the progress there is |
| `QuestProgress.ValueSurvives` | src/quest.cpp:978-1047 | a short comes back if and only if it is not negative, or -18928 |
| `QuestProgress.ProgressSurvives` | src/quest.cpp:978-1047 | a progress comes back if and only if every key is free of '=' and '}' and every value survives; the reading stops right behind it |
| `WordWrap.GlyphsByWidth` | src/util.cpp:376-394 | which glyphs are how wide, all 256 |
| `WordWrap.TextMaxWordWidth` | src/util.cpp:407-426 | the loop computes the widest word |
| `WordWrap.MaxWordIsMaximum` | src/util.cpp:407-426 | no piece without a space is wider |
| `WordWrap.MaxWordIsAttained` | src/util.cpp:407-426 | some piece without a space is that wide |
| `WordWrap.TextWordWrap` | src/util.cpp:453-477 | the loop that inserts into the text it scans ends with the specified text |
| `WordWrap.Turns` | src/util.cpp:453-477 | the loop on any text, after any number of turns: returned, thrown or still running, as the specified machine |
| `WordWrap.ReturnsIffEverythingFits` | src/util.cpp:453-477 | the loop returns if and only if no glyph is wider than a line |
| `WordWrap.ThrowsOrInsertsForever` | src/util.cpp:453-477 | otherwise it throws exactly if the first glyph is too wide, and else never ends |
| `WordWrap.WrapMeaning` | src/util.cpp:453-477 | only spaces are inserted, none exactly if every word fits already, and words end up at most one glyph wider than a line |
| `WordWrap.WideEnoughLines` | src/util.cpp:376-477 | lines of at least 11 always suffice, with words at most 11 wider |
| `WordWrap.ElevenTooMuch` | src/util.cpp:376-477 | that bound is met |

## Left out

- Sockets, select and poll, files, SQL, HTTP, threads, hashing of passwords, JSON dumps and console output: the network is byte sequences, a file is a fixed sequence, a random draw or a formula's result is a parameter.
- What packets say to clients, apart from who learns of whom. Chat, boards, admin commands, shops, trading, quests' rules and effects.
- Zero-length frames: the deframer waits for no bytes and stalls, so frames of the model have a body.
- `EOClient::Tick` chooses between upload and deframing by one flag; the two halves are modelled apart.
- Upload.Sender.StartUpload: a file that opens but cannot be searched for its length.
- Account replies renumber the sequence outside the ping handshake and are not steps of the sequence model.
- The size that `ENumber` reports, and `AddVar`, which choose the length of a field.
- Sequence.Sequencer.Check: executing a packet afterwards, and the action queue's delays, are not part of it.
- MapView.Map.Walk: what may be walked on, levels and doors are parameters, and spike damage is left out. Somebody who died is on no map's list until he is warped; that silent leaving, chairs and map reloads, which change positions without a view difference, are left out. The map somebody is warped from exists.
- ItemWorld.DropAllExact: id 0, which is no item but the mark of an empty slot.
- Item handlers refuse early (trading, distance, tile, item class, weight): a refused call changes nothing and is not a step. Weight enters as the number of items a character has room for. NPC drops, chest respawns, shops and trades create or destroy items on purpose and are not steps.
- ItemWorld.Conservation: the limits of inventory and locker stacks are at least 1, and with that of the bank account at most 2^31 - 1; items that are lore have a record in the item table (src/eodata.cpp:131-137 gives all other ids record 0).
- Wedding.Wedding.Tick: who is present is fixed during one event, and names are compared as they are given. The request for a wedding at the priest is left out.
- NpcLedger.Npc.Killed: drops, experience and quest counts at death, and which packet tells of a child's death, are not part of it.
- NpcLedger.Npc.Damage: the 32-bit additions wrap around, as they do on two's complement machines; once a total has missed a hit, the sum is claimed again only when the ledger has been cleared.
- Upload.Sender.Tick: after a byte has been written behind the buffer, only the order of the bytes still to be sent is accounted for.
- WireStack.CutFrameSwallows: a frame of which a single byte was sent; its length then depends on the upload's first byte.
- Arenas.Character.Warp: of the map change only the list of who is on the map; whether a map is loaded does not change during a run, so map and arena reloads are left out.
- Parties.Party.ShareEXP: the quotients are exact, which the source's doubles are below 2^53; each member is in the party once.
- Numbers.TdParse: real numbers instead of doubles, and no limit on the integer that is cut off at the end.
- QuestProgress.SerializeProgress: the map's entries come in the order of the map, with distinct keys. `char` is signed.
- WordWrap.TextWordWrap: the method is for texts on which the loop returns; what happens on all others is `WordWrap.ThrowsOrInsertsForever`, without the memory an endless insertion runs out of.
- `text_cap` and the lottery for the winner of a drop do not compute what their shape suggests; nothing is claimed about them.
