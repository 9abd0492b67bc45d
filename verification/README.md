# The piece pipeline of MotteSeed, in Dafny

MotteSeed is a BitTorrent client in Rust. This project models the part of it that turns peer events
into a finished download, and proves what that part promises: peer events drive a piece and block
state machine, pieces that pass their hash are written into a byte space spread over files, and what
is sent to peers follows from the state. The wire codec and the bitfields that feed the pipeline are
modelled with it.

`dafny verify dfyconfig.toml` checks the whole project.

## How the model is built

Whatever the program changes in place is a class here too: `Block`, `Piece`, `PieceManager`,
`DiskFile`, `DiskIO`, `DownloadManager`, `Buffer`. Each method is proved against a function on
values (`BlockView`, `PieceView`, `PieceMap`, `Files`, `State`), so that the state after a call is a
function of the state before. The theorems about runs and about contents are then theorems about
those functions, and `DownloadManager.Run` ties a run of the object to a run of the state machine.

| file | subject |
|---|---|
| `Bytes.dfy` | bytes, u32 with wrap-around, alignment |
| `Block.dfy`, `Piece.dfy`, `PieceManager.dfy` | blocks, pieces, the collection of pieces |
| `Disk.dfy` | files side by side as one run of bytes; the multi-file write and the rule it seeks by |
| `PieceStore.dfy` | `write_piece` and `read_piece` against the image of the torrent |
| `WriteLimits.dfy` | the exact set of pieces `write_piece` puts in place |
| `DiskIO.dfy` | the search, write and read loops over file objects |
| `Bitfield.dfy` | point query, listing and update of a bitfield |
| `Message.dfy`, `Wire.dfy` | the peer wire codec, and the bytes of its frames |
| `Downloads.dfy` | the download manager as a state machine, one step an event |
| `Safety.dfy` | the invariant over all runs |
| `Trace.dfy` | why each command is sent |
| `Peers.dfy` | who is registered and what is known of them |
| `Convergence.dfy` | runs among honest peers |
| `Completion.dfy` | a run that completes the download |
| `Landing.dfy` | what honest runs leave on disk |
| `RunLimits.dfy` | the exact conditions for runs to leave one piece, or the whole disk, right |
| `DownloadManager.dfy` | the download manager as an object |

Choices that matter to every statement:

- SHA-1 is a parameter `sha1`. Every statement holds for any function from byte strings to 20 bytes;
  nothing is claimed about collisions.
- What the program does not decide is the environment's part of a step (`Downloads.Env`): the clock,
  the block that iteration over a hash map meets first, the order in which a broadcast visits the
  peers, and whether a disk write works or fails after some prefix of the data.
- A run is any finite sequence of steps. `run` itself never leaves its loop when the channel closes
  (src/core/peer/download_manager.rs:106-140); `DownloadManager.Run` handles the events that arrive.
- u32 arithmetic wraps, as it does in the release build the program's own README asks for. Bounds
  are stated where they are needed, not assumed.
- Blocks that arrive are shorter than 2^32 bytes, as every block from a frame is
  (`Messages.BlocksFitU32`), and a torrent has at most 2^32 pieces, so that the cast of a piece's
  number to u32 (src/core/peer/piece/piece_manager.rs:55) loses nothing.
- Clock readings are integers in nanoseconds.
- `ResetTimeouts` is a step although the download manager never calls `reset_timeout_requests`
  (src/core/peer/piece/piece.rs:196): the pieces are public, so the theorems allow it at any time.

## Where the code departs from its intent

The model follows the code. Each departure has a theorem that says exactly when it does no harm.

- The multi-file write seeks to the piece's offset in the torrent inside every file
  (src/core/disk_io.rs:237), the read to the offset inside the file. The seek rule is a field of
  `Geometry`. `Disk.WriteFromByFile` says what either rule does to each file,
  `Disk.CodedSeekIsRightExactly` for which pieces the coded rule does the same as the other,
  `PieceStore.MultiWriteLaw` what such a write does to the torrent, and `PieceStore.WriteKeepsBelow` what
  any write leaves alone.
- Offsets of pieces are computed in u32: `PieceStore.OffsetsKeepApartExactly`, `PieceStore.ReadableExactly`.
- Both together: `WriteLimits.WritableExactly` gives the condition for one call of `write_piece`,
  `RunLimits.WrittenIsOnDiskExactly` for one piece over all runs, whatever happens to the others, and
  `RunLimits.HonestRunsAreRightExactly` for the whole disk; `RunLimits.TwoFilesGoWrong` is a torrent of
  two files of one byte that some run gets wrong.
- Every piece gets the full piece length (src/core/peer/piece/piece_manager.rs:56), also the last one.
  A torrent whose length is not a whole number of pieces therefore never completes among honest
  peers: `Convergence.DownloadConverges` and `Completion.CompletableExactly` are equivalences. What of
  a short last piece has no room in several files is dropped: `WriteLimits.WholePieceLandsExactly`. It
  harms no other piece, so safety and order independence hold for such torrents too.
- A block for a piece that is already complete is stored and the piece hashed again; the piece can
  lose its state Written, and go back to Missing: `Pieces.CompleteSurvivesExactly`.
- The length of a block is compared after a cast to u32 (src/core/peer/piece/block.rs:98); only a block of
  2^32 bytes or more can exploit that: `Pieces.ShapeIsKeptExactly`.
- `Piece::new` does not end for a block size of 0 or a length of 2^32 or more: `Pieces.CuttingStopsExactly`.
- A piece of length 0 is fully downloaded from the start and never complete: `Pieces.NewPieceAgreesExactly`.
- `get_next_block_for_piece` is documented to skip blocks that are already requested; it returns
  them, and the model does. `PieceManager::receive_block` is documented to return whether the block
  was stored; it returns whether the piece is complete.
- The connection strips the length prefix before it calls the decoder, which expects it
  (src/core/peer/peer_connection.rs:113-137): `Messages.StrippedFramesAreLost` says that what it
  reads is never what was sent, and `Messages.StrippedIndexDecides` what it is for messages that begin
  with an index. The round trips are about whole frames.
- The piece state Incomplete and the block state Written are never entered; the invariant says so.

## Model

| member | source | states |
|---|---|---|
| Blocks.Block.RequestFromPeer | src/core/peer/piece/block.rs:56-61 | the block is in the state Requested with that peer and time, whatever its state was |
| Blocks.Block.Reset | src/core/peer/piece/block.rs:80-88 | a request older than two minutes, and no other block, becomes missing and its peer is reported |
| Blocks.Block.ReceiveData | src/core/peer/piece/block.rs:97-101 | data is stored exactly when its length, cast to u32, is the block's |
| Pieces.CuttingStopsExactly | src/core/peer/piece/piece.rs:50-59 | the cutting loop ends if and only if the piece is empty, or the block size is positive and the length below 2^32 |
| Pieces.BlocksStandAtMultiples | src/core/peer/piece/piece.rs:55-58 | a new piece has a block at each multiple of the block size below its length, and at no other place, each of its own length and missing |
| Pieces.Piece.Cut | src/core/peer/piece/piece.rs:50-59 | the loop cuts exactly these blocks, each with its own length, all missing |
| Pieces.TilesPartitionThePiece | src/core/peer/piece/piece.rs:50-59 | every byte below the length lies in exactly one block, and no other byte in any |
| Pieces.ShortTileIsLast | src/core/peer/piece/piece.rs:56 | a block shorter than the block size ends the piece and is the last one |
| Pieces.FullPieceIsHashedWhole | src/core/peer/piece/piece.rs:101-117 | for a fully downloaded piece the hashing walk never gives up; its bytes hold each block at its offset, fill the length exactly, and are what the data walk hands out |
| Pieces.LengthJoinIsStrideJoin | src/core/peer/piece/piece.rs:225-242 | the walk by each block's own length and the walk by the block size build the same bytes, or both fail |
| Pieces.HeldBytesAreUnique | src/core/peer/piece/piece.rs:104-117 | only one byte string holds all blocks of a filled piece |
| Pieces.VerifyMakesSound | src/core/peer/piece/piece.rs:101-136 | verifying a full piece leaves it sound, and complete exactly when its bytes have the hash |
| Pieces.OpenReceiptLaw | src/core/peer/piece/piece.rs:151-163 | while a block is missing, a block that arrives is kept if it has the length of its place, and changes nothing else; at an unknown offset it changes nothing |
| Pieces.FillingReceiptLaw | src/core/peer/piece/piece.rs:101-136 | the block that fills a piece makes it complete when the bytes have the hash; otherwise every block of the piece is missing again, with its offset and length, and so is the piece |
| Pieces.FilledBytesExist | src/core/peer/piece/piece.rs:101-117 | the bytes that decide are always there: a filled piece holds a byte string of its length |
| Pieces.ReceiveKeepsSound | src/core/peer/piece/piece.rs:151-163 | any block, at any offset, whose length the cast to u32 does not mistake keeps a piece complete exactly when all blocks are there with the right hash |
| Pieces.ShapeIsKeptExactly | src/core/peer/piece/block.rs:97-101 | a stored block keeps each received block at its own length if and only if the cast does not mistake its length |
| Pieces.CompleteSurvivesExactly | src/core/peer/piece/piece.rs:151-163 | a complete piece stays complete after such a block if and only if the block does not fit or the bytes with it spliced in still have the hash |
| Pieces.RequestIsRecorded | src/core/peer/piece/piece.rs:78-82 | a request sets one block to Requested with that peer and time and changes nothing else in the piece |
| Pieces.RequestKeepsSound | src/core/peer/piece/piece.rs:78-82 | requesting a block that is not complete keeps the piece invariant |
| Pieces.TimeoutsGiveUpExactly | src/core/peer/piece/block.rs:80-88 | of the blocks of a piece exactly those requested more than 120 seconds ago become missing, and nothing else changes |
| Pieces.ResetKeepsSound | src/core/peer/piece/piece.rs:196-206 | giving up old requests keeps the piece invariant |
| Pieces.NewPieceAgreesExactly | src/core/peer/piece/piece.rs:89-91 | a new piece is full exactly when it is complete, if and only if its length is not 0 |
| Pieces.Piece.Assemble | src/core/peer/piece/piece.rs:104-117 | the collecting loop computes the bytes the specification hashes |
| Pieces.Piece.Verify | src/core/peer/piece/piece.rs:101-136 | the new piece is that of the specification; after a wrong hash every block object is in the state Missing |
| Pieces.Piece.ReceiveBlock | src/core/peer/piece/piece.rs:151-163 | the new piece is that of the specification; the result says whether the offset is known |
| Pieces.Piece.GetNextMissingBlock | src/core/peer/piece/piece.rs:180-187 | some block that is not complete, or none when the piece is fully downloaded |
| Pieces.Piece.ResetTimeoutRequests | src/core/peer/piece/piece.rs:196-206 | exactly the timed-out requests are given up, and the result maps them to the peers asked |
| Pieces.Piece.GetPieceData | src/core/peer/piece/piece.rs:225-245 | the data loop computes the bytes of a piece in state Complete, and nothing in any other state |
| PieceManagers.PieceManager.constructor | src/core/peer/piece/piece_manager.rs:49-66 | one new piece for each hash, all of the same length, that share no block |
| PieceManagers.NextPieceIsLowest | src/core/peer/piece/piece_manager.rs:92-101 | on an ordered list the selected piece is the lowest listed piece still needed; none if there is none |
| PieceManagers.PieceManager.GetNextPieceToDownload | src/core/peer/piece/piece_manager.rs:92-101 | the search loop computes that selection |
| PieceManagers.PieceManager.GetNextBlockForPiece | src/core/peer/piece/piece_manager.rs:116-125 | offset and length of a block that is not complete; none exactly when there is none |
| PieceManagers.PieceManager.ReceiveBlock | src/core/peer/piece/piece_manager.rs:157-164 | the named piece changes as specified, no other piece does, and the result says whether it is complete |
| PieceManagers.PieceManager.GetCompletedPieces | src/core/peer/piece/piece_manager.rs:213-224 | each complete piece once, in any order, and no other |
| PieceManagers.PieceManager.IsDownloadComplete | src/core/peer/piece/piece_manager.rs:231-233 | true exactly when every piece is complete |
| Disk.WriteAtIsOverwrite | src/core/disk_io.rs:161-165 | a write at a position replaces the bytes there, leaves those before and behind, and fills a gap with zeros |
| Disk.WriteFromByFile | src/core/disk_io.rs:231-247 | under either seek rule the distribution writes to each file its own chunk of the data, at the place the rule gives, and nothing else |
| PieceStore.MultiWriteLaw | src/core/disk_io.rs:196-248 | where the seek is right, the multi-file write replaces exactly the bytes at the offset in the concatenation of the files and changes the length of no file, for any list of files, empty ones included; what runs past the end is dropped |
| PieceStore.WriteKeepsBelow | src/core/disk_io.rs:231-247 | wherever the seek puts a piece, every byte of the torrent before the piece stays as it was |
| Disk.CodedSeekIsRightExactly | src/core/disk_io.rs:237 | the coded seek gives the same files, for all data of the length, if and only if the offset is 0 or the piece ends inside the first non-empty file |
| PieceStore.WritePieceLaw | src/core/disk_io.rs:148-174 | for a writable piece, writing it or a prefix of it replaces exactly its own stretch of the image, as far as there is room; a short last piece of several files is cut at their end |
| PieceStore.PieceWritesCommute | src/core/disk_io.rs:148-174 | writes of two different writable pieces, the last included, commute, down to each file |
| PieceStore.WriteOrderIsIrrelevant | src/core/disk_io.rs:148-174 | writing the same writable pieces, the last included, in any order and with repeats, leaves the same files |
| PieceStore.WritesHold | src/core/disk_io.rs:148-174 | after all those writes each piece written stands at its place, as far as there is room |
| PieceStore.ReadFromIsSlice | src/core/disk_io.rs:357-374 | the reading loop collects a slice of the concatenation, over any number of files |
| PieceStore.ReadFromPads | src/core/disk_io.rs:357-374 | what lies past the last file is read as zeros |
| PieceStore.ReadRefusedExactly | src/core/disk_io.rs:268-303 | a read is refused exactly for an offset past the end of the torrent, or past that of a single file that is too short |
| PieceStore.ReadPieceLaw | src/core/disk_io.rs:268-303 | reading a piece gives its part of the image, the short last piece included |
| PieceStore.ReadAfterWrite | src/core/disk_io.rs:268-303 | what was written is read back, of a last piece the part inside the torrent |
| PieceStore.ReadOfOtherPieceIsUnchanged | src/core/disk_io.rs:268-303 | a write does not change what any other piece reads as; a write that the seek misplaces changes no earlier piece |
| PieceStore.ReadAllIsTorrent | src/core/disk_io.rs:268-303 | all pieces read in turn are exactly the content of the torrent, when the rounded-up length is below 2^32 |
| PieceStore.ReadableExactly | src/core/disk_io.rs:270-284 | reading is right for all contents if and only if the u32 arithmetic on the piece's ends does not wrap, or wraps where the end is not needed |
| PieceStore.OffsetsKeepApartExactly | src/core/disk_io.rs:150 | the pieces have disjoint places on disk if and only if the last one starts below 2^32 |
| WriteLimits.WritableExactly | src/core/disk_io.rs:148-248 | a piece is written where it belongs as far as there is room, and nothing else is changed, for all files and data, if and only if its offset fits in u32 and lies inside the torrent and the seek rule is right for it |
| WriteLimits.WholePieceLandsExactly | src/core/disk_io.rs:231-247 | all of the piece is written where it belongs if and only if, besides, several files have room for it |
| DiskDriver.DiskFile.WriteAll | src/core/disk_io.rs:161-165 | all data is written at the position, or an error, which a reliable file never has, leaves a prefix of it written |
| DiskDriver.DiskIO.FindFile | src/core/disk_io.rs:207-219 | the search loop finds the first file that ends after the offset, and its start |
| DiskDriver.DiskIO.Distribute | src/core/disk_io.rs:230-247 | the writing loop leaves every file with its chunk, or on an error with its chunk of a prefix of the data |
| DiskDriver.DiskIO.WriteMultiFilePiece | src/core/disk_io.rs:196-248 | the files afterwards are those of the specification for the part of the data that was written |
| DiskDriver.DiskIO.WritePiece | src/core/disk_io.rs:148-174 | success, certain on reliable files for a good index, means all data written as specified, an error a prefix of it; a bad index changes nothing |
| DiskDriver.DiskIO.ReadMultiFilePiece | src/core/disk_io.rs:325-377 | on success, certain on reliable files for a good index, the buffer holds what the specification collects from the files; no file changes |
| DiskDriver.DiskIO.ReadPiece | src/core/disk_io.rs:268-303 | on reliable files the result is that of the specification, errors included; on others data returned is; the contents of the files do not change |
| Bitfields.HighBitIsFirst | src/core/peer/peer_state.rs:152-161 | piece j is claimed exactly when byte j / 8 has the digit of value 128, 64, .. 1 for j % 8 = 0, 1, .. 7: the high bit comes first |
| Bitfields.SetBitIsAdded | src/core/peer/download_manager.rs:201 | setting a bit adds its power of two to the byte, unless it is set |
| Bitfields.WithBitSetsOneBit | src/core/peer/download_manager.rs:201 | the mask sets the bit asked for and no other |
| Bitfields.ListingAgreesExactly | src/core/peer/download_manager.rs:145-160 | the listing is strictly increasing and agrees with the point query if and only if no bit past 2^32 is set |
| Bitfields.ShortBitfieldsAreListed | src/core/peer/peer_state.rs:152-161 | so they agree on every bitfield of at most 2^29 bytes |
| Bitfields.SetHaveAddsOne | src/core/peer/download_manager.rs:194-206 | a Have message adds its piece when in range, and changes no other bit and not the length |
| Bitfields.SetHavesIsUnion | src/core/peer/download_manager.rs:194-206 | a sequence of Have messages amounts to the union |
| Wire.PlainFrames | src/core/peer/message.rs:103-119 | the five frames without fields, byte for byte |
| Wire.HaveFrame | src/core/peer/message.rs:120-124 | a have is 0 0 0 5 4 and the index, high byte first |
| Wire.BitfieldFrame | src/core/peer/message.rs:125-129 | a bitfield is its length, id 5 and the bytes |
| Wire.RequestFrame | src/core/peer/message.rs:130-140 | a request is 0 0 0 13 6 and index, begin and length |
| Wire.PieceFrame | src/core/peer/message.rs:141-151 | a piece is its length, id 7, index, begin and the block |
| Wire.CancelFrame | src/core/peer/message.rs:152-162 | a cancel is 0 0 0 13 8 and index, begin and length |
| Wire.PortFrame | src/core/peer/message.rs:163-167 | a port is 0 0 0 3 9 and the port, high byte first |
| Wire.ReadsKeepAlive | src/core/peer/message.rs:201-210 | a keep-alive is read exactly from a length of zero, whatever follows |
| Wire.ReadsKind | src/core/peer/message.rs:221-289 | of a frame that is not a keep-alive the fifth byte, 0 to 9, decides which of the ten messages is read |
| Wire.ReadsFields | src/core/peer/message.rs:226-287 | the fields read are the numbers the bytes at their places spell, high byte first |
| Wire.RefusedExactly | src/core/peer/message.rs:199-290 | which byte strings are refused as too short and which as of unknown type |
| Wire.SplitsOff | src/core/peer/message.rs:231-262 | a bitfield or block read is split off the buffer, and the rest stays |
| Messages.RoundTripExactly | src/core/peer/message.rs:101-290 | decoding an encoded message gives it back if and only if its length prefix does not wrap to 0 |
| Messages.CanonicityExactly | src/core/peer/message.rs:199-290 | a decoded frame encodes back to the same bytes if and only if it is canonical: its prefix is its length, and the four fixed messages have no surplus |
| Messages.StreamRoundTrip | src/core/peer/message.rs:101-290 | a stream of messages, cut by the length prefixes and decoded, is the same list |
| Messages.StreamCanonicityExactly | src/core/peer/message.rs:199-290 | a stream that decodes encodes back to the same bytes if and only if each frame cut from it is canonical |
| Messages.StreamsAreInjective | src/core/peer/message.rs:101-169 | different lists of messages have different encodings |
| Messages.EncodingIsPrefixFree | src/core/peer/message.rs:101-169 | no encoding begins another |
| Messages.StrippedFramesAreLost | src/core/peer/peer_connection.rs:113-137 | without its prefix every message is read as an error or as a message whose body is shorter by four bytes or more, so never as what was sent |
| Messages.StrippedIndexDecides | src/core/peer/peer_connection.rs:113-137 | a have, request or cancel is then read as one of the four messages without payload or as an error, by the low byte of its index |
| Messages.SerializeInto | src/core/peer/message.rs:101-169 | the buffer grows by exactly the encoding of the message |
| Messages.Deserialize | src/core/peer/message.rs:199-290 | the result is that of the specification; a bitfield or block is split off the buffer |
| Safety.PiecesStaySound | src/core/peer/piece/piece.rs:89-163 | in every reachable state each piece is complete exactly when all its blocks are there, with the hash of the torrent |
| Safety.WrittenIsLeftOnReceipt | src/core/peer/piece/piece.rs:151-157 | a block for a written piece changes nothing, or takes it out of the state Written |
| Safety.StorePieceLaw | src/core/peer/download_manager.rs:281-291 | what storing a complete piece writes, marks and announces when the write works, what is left when it fails, and that a refused piece changes nothing; for any disk |
| Safety.RunKeepsSafe | src/core/peer/download_manager.rs:106-140 | any run, under either seek, keeps the invariant: sound pieces, and on disk, byte for byte as it was hashed, every written piece that is writable, a last piece as far as there is room; other pieces may be misplaced as long as no accepted one that completes starts at 2^32 or later |
| Safety.EveryRunIsSafe | src/core/peer/download_manager.rs:272-292 | so it holds in every state such a run reaches from the start, whatever the events, bad data, misplaced and failing writes |
| Safety.BlocksDecide | src/core/peer/download_manager.rs:272-292 | for that only the pieces that get blocks need to be looked at: no other piece ever completes |
| Safety.InPlaceRunIsSafe | src/core/peer/download_manager.rs:272-292 | when each piece that gets blocks is refused or writable, every written piece is on disk and all files keep their lengths |
| Trace.EverySendIsRight | src/core/peer/download_manager.rs:174-292 | every command sent in any run, whatever the disk, has the step that justifies it: interest, request or announcement, each with its own condition |
| Trace.UnchokeSendsRight | src/core/peer/download_manager.rs:212-227 | a request goes to the peer that unchoked, for a claimed piece that is not complete and a block of it that has not arrived, inside the piece and with an exact offset; the block is then Requested from that peer at that time, and no other block or piece changes |
| Trace.AnnouncedPieceIsEarned | src/core/peer/download_manager.rs:281-291 | an announcement follows a write that worked, of a whole piece with the hash of the torrent; where the piece is writable the image shows it |
| Trace.WrittenIsAnnounced | src/core/peer/download_manager.rs:254-258 | a piece that becomes written is announced to every registered peer, once each |
| Trace.UnchokeRequestsLowest | src/core/peer/download_manager.rs:230-249 | in every reachable state an unchoke is answered by one request for the lowest needed piece the peer claims, or changes nothing |
| Trace.NeededExactly | src/core/peer/piece/piece_manager.rs:92-101 | a piece is needed exactly when some block of it has not been received |
| Trace.BitfieldIsAnswered | src/core/peer/download_manager.rs:174-184 | a bitfield of a registered peer is stored, and interest sent exactly when it names a needed piece |
| Trace.KnowledgeIsUnion | src/core/peer/download_manager.rs:194-206 | through any run a peer is known to have the pieces of its bitfield and those it announced since |
| Peers.HaveIsRecorded | src/core/peer/download_manager.rs:194-206 | a have adds one piece to those known of a peer with a bitfield, and changes nothing for any other |
| Peers.AddPeerRegisters | src/core/peer/download_manager.rs:87-89 | an added peer is registered without a bitfield; other peers, pieces, disk and commands stay |
| Peers.LeavingDrops | src/core/peer/download_manager.rs:96-98 | a removed or disconnected peer, and no other, is gone |
| Peers.RegisteredExactly | src/core/peer/download_manager.rs:87-98 | over any run a peer is registered at the end exactly when the last step that adds it or makes it leave adds it |
| Peers.OtherEventsAreIgnored | src/core/peer/download_manager.rs:130 | the five other kinds of events change nothing |
| Peers.FirstRequestIsSent | src/core/peer/download_manager.rs:106-140 | with every torrent a peer that joins, claims the first piece and unchokes gets interest and then a recorded request: such a run starts from the initial state |
| Convergence.FullPieceIsContent | src/core/peer/piece/piece.rs:101-117 | a full piece of genuine blocks is the stretch of the content it stands for |
| Convergence.HonestReceipt | src/core/peer/piece/piece.rs:151-163 | an honest block never fails a piece |
| Convergence.FailedPieceRecovers | src/core/peer/piece/piece.rs:128-136 | after a failed check the right blocks, each at least once and in any order, complete the piece with the right bytes |
| Convergence.HonestRunsLoseNothing | src/core/peer/download_manager.rs:106-140 | among honest peers no received block is ever lost |
| Convergence.CompleteStaysComplete | src/core/peer/piece/piece.rs:213-215 | among honest peers completeness never goes back to false |
| Convergence.DownloadConverges | src/core/peer/piece/piece_manager.rs:231-233 | any honest run that brings every block, in any order, completes every whole piece with the content's bytes; the download completes if and only if the content is a whole number of pieces |
| Completion.FullPassExists | src/core/peer/download_manager.rs:106-140 | for every content and disk there is a run among honest peers that brings every block without a failing write: the conditions of the theorems about such runs can be met |
| Completion.CompletableExactly | src/core/peer/piece/piece_manager.rs:49-59 | some run among honest peers completes the download if and only if the content is a whole number of pieces |
| Landing.RunLands | src/core/peer/download_manager.rs:272-292 | after a run among honest peers without failing writes the disk is the one before it with exactly the pieces marked written put in place |
| Landing.WorkingRunIsRight | src/core/peer/download_manager.rs:272-292 | so each byte of the image is that of the content in a written piece and untouched elsewhere, when every whole piece is writable |
| Landing.DownloadReachesDisk | src/core/peer/download_manager.rs:272-292 | if an honest run brings all blocks of a piece that is writable and lies wholly inside the content, the last one with a write that works, the piece is written and in place on disk, whatever becomes of other pieces and earlier writes; offsets of whole pieces must not wrap |
| Landing.WholeDownloadReachesDisk | src/core/peer/download_manager.rs:272-292 | and content that is a whole number of pieces, all writable, is on disk as it is |
| RunLimits.HonestRunsAreRightExactly | src/core/disk_io.rs:148-248 | for all contents, disks and runs among honest peers the disk is right, byte for byte, if and only if every piece that lies wholly inside the torrent is writable |
| RunLimits.WrittenIsOnDiskExactly | src/core/disk_io.rs:148-248 | with all pieces starting below 2^32, a given piece is on disk whenever it is marked written, for all torrents of the layout, disks and runs, hostile ones included, if and only if it starts past the end, where it is refused, or is writable |
| RunLimits.SecondByteIsMisplaced | src/core/disk_io.rs:237 | in a torrent of two files of one byte the coded seek writes the second byte behind the end of the second file |
| RunLimits.TwoFilesGoWrong | src/core/disk_io.rs:237 | so some run among honest peers leaves that torrent wrong, whatever the hash function |
| DownloadManagers.DownloadManager.constructor | src/core/peer/download_manager.rs:58-69 | the new manager is the initial state of the state machine, without a disk |
| DownloadManagers.DownloadManager.SetDiskIo | src/core/peer/download_manager.rs:74-76 | only the disk changes |
| DownloadManagers.DownloadManager.AddPeer | src/core/peer/download_manager.rs:87-89 | the peer is registered, as a step of the state machine |
| DownloadManagers.DownloadManager.RemovePeer | src/core/peer/download_manager.rs:96-98 | the peer is dropped, as a step of the state machine |
| DownloadManagers.DownloadManager.GetPeerAvailablePieces | src/core/peer/download_manager.rs:145-160 | the nested loops compute the listing |
| DownloadManagers.DownloadManager.HandleBitfield | src/core/peer/download_manager.rs:174-184 | the handler is the step of the state machine |
| DownloadManagers.DownloadManager.HandleHave | src/core/peer/download_manager.rs:194-206 | the handler is the step of the state machine |
| DownloadManagers.DownloadManager.HandleUnchoke | src/core/peer/download_manager.rs:212-249 | the handler is the step of the state machine, for some block that the iteration may stop at |
| DownloadManagers.DownloadManager.BroadcastHave | src/core/peer/download_manager.rs:254-258 | one announcement to each registered peer, in some order |
| DownloadManagers.DownloadManager.HandleReceivePiece | src/core/peer/download_manager.rs:272-292 | the handler is the step of the state machine, for the fate the write met |
| DownloadManagers.DownloadManager.Run | src/core/peer/download_manager.rs:106-140 | the loop performs a run of the state machine over the events, and stops after the first step that completes the download |

## Left out

- Sockets, the handshake, tasks, channels and `select!`: events come in as a sequence, commands go out as a sequence, and a command handed to a registered peer counts as sent.
- Trackers, torrent parsing and bencode: piece length, hashes and file lengths are inputs.
- SHA-1 itself, as said above.
- Transfer rates, torrent statistics and the piece priority, which nothing reads.
- `DiskIO::new`: files start open, distinct and of their declared lengths. A single file may be longer, since a full last piece makes it grow.
- The mutexes around the files: the model has one task.
- Overflow in a debug build, where u32 arithmetic panics instead of wrapping.
- Overflow of u64 sums of file lengths, and of usize on a 32-bit machine.
- `Block::mask_written`, which nothing calls.
- Liveness of the client: that requests are answered or that events occur. Convergence is about given runs.
- DiskDriver.DiskIO.ReadPiece: on a file that is not reliable an I/O error may come at any time, and what it leaves in the buffer is not described.
- PieceStore.MultiWriteLaw: asks that the seek is right for the data, which `Disk.CodedSeekIsRightExactly` makes exact; of a misplaced write `Disk.WriteFromByFile` says what it does to each file.
- PieceManagers.PieceManager.MarkPieceWritten: states the new pieces only; what the mark means is in `Safety.RunKeepsSafe`.
- Safety.EveryRunIsSafe: makes no claim about written pieces that the seek misplaces (`RunLimits.WrittenIsOnDiskExactly` shows that they can be missing), nor about runs that complete an accepted piece at 2^32 or later: its wrapped offset can fall into an earlier piece (`PieceStore.OffsetsKeepApartExactly`).
- Messages.Deserialize: models the buffer as a byte sequence, not the sharing between the buffer and the slices split off it.
