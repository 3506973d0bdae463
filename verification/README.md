# BitTorrent client: reassembly, sessions, framing, layout and metainfo

A Dafny model of the core of a small C++ BitTorrent client (BEP 3), with proofs. Where the
source changes objects step by step, the model is a class or a loop with the same branches,
proved equal to a pure specification; the theorems are about the specification.

| source | model |
|---|---|
| `piece.cpp` | `Blocks` (the interval set, trimming, coalescing), `Pieces` (the `Piece` class), `PieceRuns` (any sequence of adds; the 16 KiB requests) |
| `piece_list.cpp` | `PieceLists` |
| `message_types.hpp` | `Bytes`, `Messages` |
| `peer_protocol.cpp` | `Framing` (the parser, for any handler), `StreamLaws`, `Session` (what each message means), `SessionLaws` (what that amounts to, byte by byte), `PeerProtocols` (the class) |
| many sessions, one allocator | `Swarms` (one step), `SwarmRuns` (all runs), `SwarmHistories` (where blocks came from), `SwarmClaims` (where claims came from), `SwarmStreams` (from bytes to steps), `SwarmWitnesses` (runs that exist, pieces that are lost) |
| `client_logic.cpp` | `ReadLoops` (the read loop, for any handler and any cut), `ClientLogics` (the class) |
| `torrent_file.cpp`, layout | `Layouts` |
| `files.cpp` | `FileSets`, `Placement` |
| wire to disk | `EndToEnd` |
| `bedecoder/be_parser.cpp` | `Bencode`, `BencodeLaws`, `BencodeLimits` (what is accepted beyond encodings, what is refused) |
| `torrent_file.cpp`, info slice | `InfoSlices`, `InfoLaws`, `MetainfoLaws` |

Check everything with `dafny verify dfyconfig.toml --resource-limit 2000000`.

## Main results

* **Reassembly.** The trimming and the three ways of joining blocks in `Piece::add` amount to
  the textbook union of intervals, and the buffer to a byte map in which the first accepted
  writer wins. The set of blocks stays in normal form, and free of empty blocks as long as no
  empty range is added, so the one comparison in `full` is equivalent to every byte being
  there. In any sequence of non-empty adds, one is refused exactly when it runs over received
  bytes from one gap into another. Answers to the requests of `create_request`, in any order
  and with any repetition, are never refused, and the piece is full exactly when the last
  missing one has come.
* **Sessions.** In every interleaving of any number of sessions, at the granularity of the
  locked allocator operations, each piece number handed out is in exactly one of four places:
  a session's hand, the allocator, the files, or lost. With honest blocks every piece written
  is the torrent's. Whoever sends what, every byte written is traced to a PIECE message the
  session got after the draw that gave it the piece. Both misuse errors of `Piece::add` are
  unreachable. Whatever a connection delivers, in whatever chunks, a read callback is a run.
  What the 20 attempts of `get_piece_index` end with is given exactly. Every message has a law:
  what it queues, writes, claims, gives back or leaves alone, and exactly when it throws.
* **Framing.** For any handler and any cut of the stream, the incremental parser does what one
  call on the whole stream does. The read callback keeps this until its early check or its
  space check fires. A stream of messages and keep-alives is read under every cut if and only
  if each message fits the buffer and has an id up to 8 or at most six bytes. A message with an
  unknown id ends any stream, and nothing behind it is handled. What the write
  callback has written parses back to the handshake and the queued messages.
* **Layout and files.** `fill_piece_offsets` has a closed form; its files chain without gaps;
  the binary search returns exactly for the pieces of the layout; a piece is written once
  to every file that contains it and to no other; the slices tile the piece; the order of
  writes does not matter. How far each slice lands from its place is computed exactly.
* **Wire to disk.** In every run with honest blocks, on every torrent whose slices fit its
  pieces, a file whose pieces have all arrived is correct exactly when it does not end on a
  piece boundary, lies inside one piece, and its bytes repeat one piece length later for every
  earlier file that ends on a boundary. Some run finishes a file if and only if the last piece
  the layout gives it is one the allocator hands out.
* **Metainfo.** Parsing the encoding of any value gives exactly its tokens and slices. Every
  normal return on any input has matching brackets; which integers and strings are accepted,
  and that one bad item spoils the document, is stated exactly. The slice taken for hashing is
  the dictionary after the first `info` exactly under a condition on the next token, and for
  every encoded metainfo dictionary it is the `info` value exactly when that value is a
  dictionary and the next key is not empty.

## Where the code does not do what it is meant to

The model follows the code. Each of these is a lemma with the exact condition.

* `Placement.WellPlacedIff`, `Placement.Misplacement`: `offset_in_file` (`files.cpp:120`) is
  one piece length too far for every slice but a file's first, and every earlier file that
  ends on a piece boundary (`torrent_file.cpp:276-284`) moves slices back by one. A slice is in
  place exactly when these cancel: no such file for a first slice, one for any other.
  `Placement.CorrectIffOnePiece` gives the consequence for every finished file: only one
  inside one piece can be correct, and it holds the bytes one piece length later for every
  such earlier file.
* `Placement.TakenIsSize`: a file takes one whole piece too many exactly when it ends on a
  piece boundary; `Placement.AlignedLastSlice` says where these bytes go, behind its end.
* `EndToEnd.AlignedFileOverruns`, `EndToEnd.AllSlicesFitIff`: such files can make a slice run
  past the last piece's buffer; `AllSlicesFitIff` says exactly when.
* `EndToEnd.SomeRunFinishesIff`, `EndToEnd.DriftedFileNeverFinished`: files that end on a piece
  boundary push the piece numbers of later files up; a file whose last number is past the
  allocator's last piece is never finished, and every other file with a non-empty last piece
  can be. Two files of one piece each before a shorter one are enough.
* `SwarmWitnesses.LastPieceWrittenIff`: when the torrent's length is a multiple of the piece
  length, `m_last_piece_size` is 0 (`torrent_file.cpp:290`) and no run writes the last piece;
  otherwise some run does.
* `FileSets.SearchReturnsIff`: for a number past the last piece of the layout, `search` calls
  itself for ever.
* `InfoLaws.InfoSliceExactIff`: the slice is wrong exactly before a string token whose length
  prefix starts with 0 or has more than 19 digits.
* `MetainfoLaws.ScalarSlice`, `MetainfoLaws.ListSlice`, `InfoLaws.InfoBeforeBracketInvalid`: for a
  string or an integer the slice lacks what is before its text, for a list it is its first
  bracket at most, and an `info` that is a value and not a key ends in no slice.
* `BencodeLimits.TruncatedListAccepted`, `BencodeLimits.StringOkIff`: lists, dictionaries and
  strings cut short by the end of the source are accepted.
* `SessionLaws.KeepsNone`, `SessionLaws.LooksAtOneNewPiece`: while any piece has been returned, no
  new one is drawn; and a new one the peer does not have uses up the other attempts.
* `PieceRuns.EmptyFirstAddBlocks`: an empty first block makes later adds across it fail.
* `ReadLoops.EarlyRejectSeesTheCut`: the early check (`client_logic.cpp:41-47`) refuses a
  handshake exactly when, after some read, six to sixty-seven bytes of it have arrived.
* `ReadLoops.EveryCutReadIff`, `ReadLoops.PortSeesTheCut`: the same check compares with 8 where
  ids go up to 9, so a PORT message of seven bytes or more is refused when it comes in parts
  and accepted in one part.
* `SwarmWitnesses.LostIff`: a run loses a piece exactly when a session that holds one draws
  again, gets a block that is refused, or closes. `SwarmWitnesses.SecondUnchokeLoses` is a run
  that loses piece 0.
* `SwarmWitnesses.NothingReturnedIff`: -1 gets into the allocator (`peer_protocol.cpp:130`,
  `peer_protocol.cpp:226`) exactly by a choke with nothing in hand or an attempt that drew
  nothing; `SwarmWitnesses.EarlyChokeReturnsNothing` is such a run. The invariants count lost
  pieces and speak of non-negative numbers.

## How the source is represented

* Undefined behaviour is a result of its own, `Undefined`: a PIECE frame shorter than its
  fields, a block that does not fit the buffer, `log10(0)`, a read past the token list. Runs
  of the swarm exclude steps with this result; everything else can happen.
* A HAVE frame shorter than its field is read on into the buffer behind it; those bytes are
  arbitrary but, for one session, fixed.
* `Piece.Add` requires a range that lies inside the buffer, because the source copies
  without a check; the session shows where that can fail. Empty ranges are allowed. Likewise
  `FileSets.File.WritePiece` requires its slice to lie inside the piece;
  `Placement.ContainedSliceFits` and `EndToEnd.AllSlicesFitIff` show when it does.
* `std::set<Block>` is the sequence of its elements in order. Freshly allocated
  memory holds an arbitrary function of the index (`garbage`).
* `BitSet`, `SubString`, `StringWrapper`, the poller and the sockets come from a library that is
  not part of this model. A bit read outside the set is an arbitrary constant (`beyond`), a bit
  set outside is ignored, bytes are unpacked high bit first as BEP 3 says. A token's text is
  its slice clipped to the source, and empty for brackets.
* `strtol` and `log10` are decimal parsing, with saturation at 2^63 - 1, and the exact number of
  digits. The bencode source ends with a NUL and is at most 2^63 - 1 bytes long.
* The 32-bit fields of messages wrap (`Put32`), `substr` takes an unsigned length and a depth of
  0 wraps to 2^64 - 1. Other 64-bit counters are exact naturals.
* A file is a map from positions to bytes and `pwrite` is complete. `PeerProtocols.PieceSink`
  records the calls a session makes to `Files::write_piece`; `EndToEnd` carries them on to
  the files, where `Placement.DispatchesReplay` says what such calls amount to.
* A socket read gives some of the bytes that have arrived and 0 when there are none; a write is
  complete.

## Model

| member | source | states |
|---|---|---|
| Blocks.ModifyOnIntersection | piece.cpp:19-41 | What is left is the range without the stored block's bytes; the two errors are exactly the two strict containments |
| Blocks.UpperBound | piece.cpp:79 | Splits the blocks by whether they start after the offset |
| Blocks.TrimNeighbours | piece.cpp:80-116 | Trimming against two neighbours is exhaustive: it fails exactly when some stored block of all is strictly inside, "contains" cannot occur on the left nor "contained" on the right, and the rest is exactly the bytes no stored block covers |
| Blocks.Coalesce | piece.cpp:123-155 | The three ways of joining amount to the textbook interval union |
| Blocks.UnionAround | piece.cpp:123-155 | The textbook union of a range that reaches between two neighbours is the block list with only that place changed: joined left, right, both or neither |
| Blocks.UnionOfTrimmed | piece.cpp:118-155 | Joining the trimmed range gives the same set as joining the whole one |
| Blocks.UnionNormal | piece.cpp:123-155 | The union keeps the normal form: sorted, at least one missing byte between neighbours, inside the piece, and no empty block when a non-empty range is added |
| Blocks.UnionCovers | piece.cpp:123-155 | The union covers the old bytes and the new range and nothing else |
| Pieces.Piece.Init | piece.cpp:53-59 | A fresh buffer of the given size with unspecified bytes, no blocks |
| Pieces.Piece.Add | piece.cpp:61-156 | For every in-range add: refused with nothing changed but an unset id, or the union of ranges and an overlay in which bytes already there stay |
| Pieces.Piece.Merge | piece.cpp:78-156 | The part after the first block meets the same specification |
| Pieces.FindRoom | piece.cpp:78-121 | Which part of the range is copied and where, or that nothing is to be stored, or that a stored block is straddled |
| Pieces.AddsCut | piece.cpp:118-121 | Copying only the trimmed part and joining only it is the first-writer-wins overlay of the whole range |
| Pieces.AddsNothing | piece.cpp:96-101 | A range inside one stored block changes neither bytes nor blocks |
| Pieces.Piece.Full | piece.cpp:158-164 | The first block is as long as the piece |
| Pieces.Piece.Get | piece.cpp:166-174 | Hands the very buffer over and resets the object |
| Pieces.Piece.Clear | piece.cpp:176-182 | Resets the object |
| PieceRuns.AddKeepsReady | piece.cpp:61-156 | An add for the piece's own id is accepted or refused for straddling only, and a refused one changes nothing |
| PieceRuns.AddOutcome | piece.cpp:61-156 | The two misuse errors are exactly a missing buffer and a foreign id and change nothing; otherwise an add is refused exactly when a stored block is swallowed, and an empty one onto something stored changes nothing |
| PieceRuns.AddOverlays | piece.cpp:61-156 | Byte by byte: coverage grows by the accepted range, covered bytes keep their value, new ones come from the source |
| PieceRuns.RejectedIffStraddles | piece.cpp:61-116 | In any sequence of non-empty adds, one is refused exactly when it fills a gap left by those before it, crosses received bytes and reaches into the next gap |
| PieceRuns.SwallowsIffStraddles | piece.cpp:27-31 | On any normal set without empty blocks, strict containment of a stored block is the same as crossing from one gap into another |
| PieceRuns.BlocksStayNormal | piece.cpp:61-156 | After any adds the set is sorted, gapped and inside the piece, and holds no empty block if none of the ranges was empty |
| PieceRuns.FullIffCovered | piece.cpp:158-164 | Testing the first block's size is testing that every byte is covered |
| PieceRuns.CoverageIsUnion | piece.cpp:61-156 | After any adds, a byte is covered exactly when an accepted add contained it |
| PieceRuns.CoveredStays | piece.cpp:118-119 | A covered byte is never overwritten by any later add |
| PieceRuns.FirstWriterWins | piece.cpp:61-156 | Every covered byte is that of the first accepted add that contained it |
| PieceRuns.FullPieceWriter | piece.cpp:158-174 | In a full piece every byte has such a first writer |
| PieceRuns.HonestPiece | piece.cpp:61-174 | If every block carries the piece's bytes, a full buffer is the piece, whatever overlapped or was refused |
| PieceRuns.RequestsTile | peer_protocol.cpp:237-248 | The requests cut a piece of any size into its 16 KiB blocks, each byte in exactly one |
| PieceRuns.AnswersAccepted | peer_protocol.cpp:237-248 | No answer to a request is refused, in any order and with any repetition |
| PieceRuns.AnswersCover | peer_protocol.cpp:182-183 | The covered bytes are exactly the blocks that have arrived |
| PieceRuns.DeliveryCompletes | peer_protocol.cpp:182-185 | Full exactly when the last missing block has arrived, and then the buffer is the original piece |
| PieceRuns.EmptyFirstAddBlocks | piece.cpp:71-76 | An empty first add leaves an empty block, and adding the whole piece then fails exactly when it lies strictly inside |
| PieceLists.PieceList.GetPiece | piece_list.cpp:17-35 | The front of the returned pieces, else the next new one, else -1 and size 0 |
| PieceLists.PieceList.ReturnPiece | piece_list.cpp:37-41 | Appends to the returned pieces |
| PieceLists.DrawOrder | piece_list.cpp:17-35 | The k-th of n draws in closed form: returned pieces in order, then new ones ascending, then nothing |
| Bytes.Get32Put32 | message_types.hpp:26 | Reading back a network-order field gives the low 32 bits of what was put in |
| Messages.RequestRoundTrip | message_types.hpp:66-76 | A request is one frame and its three fields read back, cut to 32 bits |
| Messages.InterestedIsFrame | message_types.hpp:42-45 | An interested message is one frame with its id |
| Messages.PieceRoundTrip | message_types.hpp:78-88 | A PIECE message is one frame whose index, offset and payload read back |
| Framing.ProcessAppend | peer_protocol.cpp:76-120 | For any handler, splitting the input in two and carrying the leftover forward gives the result of one call |
| Framing.LeftoverIsStuck | peer_protocol.cpp:97-108 | Parsing a leftover again does nothing |
| Framing.ChunkingIrrelevant | peer_protocol.cpp:76-120 | For any sequence of chunks: same dispatched effects and outcome, and while running the same leftover, as one call on the whole stream |
| Framing.StreamDispatched | peer_protocol.cpp:97-117 | Frames reach the handler whole and in order, keep-alives are skipped, and the rest of the input is where it would be alone |
| Framing.StreamParsesBack | peer_protocol.cpp:76-120 | A handshake and any frames parse back to exactly those frames |
| StreamLaws.LoopDispatches | peer_protocol.cpp:97-117 | For every handler, complete messages reach it in order until one fails, and then the loop is where it would be on the rest alone |
| StreamLaws.UnknownIdRefused | peer_protocol.cpp:110-114 | A complete message with an id past the last throws, whatever the handler and whatever follows |
| StreamLaws.UnknownIdEndsStream | peer_protocol.cpp:87-119 | After a handshake the messages before it reach the handler, nothing after it does, and the call throws |
| StreamLaws.FailingStreamNeverRead | client_logic.cpp:30-37 | A stream on which process_message fails is not read to the end under any cut |
| Session.HandlerKeepsInStep | peer_protocol.cpp:122-204 | Every message, well-formed or not, keeps the buffer's id and size equal to the piece in hand |
| Session.LoopKeepsInStep | peer_protocol.cpp:97-117 | So does every call on any bytes |
| Session.AddNeverMisused | peer_protocol.cpp:179-183 | A block for the piece in hand fails exactly when it straddles: neither runtime_error of add is reachable |
| Session.AcquiredIsOffered | peer_protocol.cpp:215-235 | A piece kept after up to 20 draws is one the peer claims, with the allocator's size; otherwise nothing is held |
| Session.RequestsAskForPiece | peer_protocol.cpp:237-248 | Queued message j reads back as the j-th block of the piece |
| SessionLaws.KeepsFirstOffered | peer_protocol.cpp:215-228 | Among returned pieces the first one the peer claims, with bytes, is kept if the attempts reach it, and those rejected go behind the others |
| SessionLaws.KeepsNone | peer_protocol.cpp:215-228 | If the attempts reach none, nothing is kept and the returned pieces have only been turned round, by the attempts modulo their number |
| SessionLaws.LooksAtOneNewPiece | peer_protocol.cpp:215-228 | With nothing returned exactly one new piece is looked at; if it is not kept it is drawn again and again and ends up returned |
| SessionLaws.NothingLeft | peer_protocol.cpp:215-228 | With nothing left, -1 is returned and drawn again, and kept if the bit set happens to say yes |
| SessionLaws.UnchokeAsks | peer_protocol.cpp:136-141 | An unchoke that gets a piece queues exactly its requests, each reading back as its block, over an empty buffer; one that gets none queues nothing |
| SessionLaws.BlockIsBuffered | peer_protocol.cpp:179-183 | A block that leaves the piece incomplete goes into the buffer and changes nothing else |
| SessionLaws.LastBlockWritesAndAsks | peer_protocol.cpp:182-193 | The block that completes it writes the whole piece once, lets go of it, and asks for the next, if there is one, block by block |
| SessionLaws.ForeignBlockIgnored | peer_protocol.cpp:179-180 | A block for another piece does nothing |
| SessionLaws.IdleMessageIgnored | peer_protocol.cpp:143-204 | Nor do the five messages with empty handlers |
| SessionLaws.ThrowsIff | peer_protocol.cpp:122-204 | On a session in step a message throws if and only if it is a block for the piece in hand that fits and straddles |
| SessionLaws.UndefinedIff | peer_protocol.cpp:175-183 | It is undefined if and only if it is a PIECE too short for its fields, or a block for the piece in hand that does not fit |
| SessionLaws.ChokeGivesBack | peer_protocol.cpp:127-134 | A choke puts the number in hand behind the returned ones, and the session holds nothing and has no buffer |
| SessionLaws.BitfieldSetsClaims | peer_protocol.cpp:161-168 | After a BITFIELD the claims are exactly its bits, high bit first, and exactly one INTERESTED is queued |
| SessionLaws.HaveAddsOne | peer_protocol.cpp:153-159 | A HAVE adds the piece it names, if the set has room for it, and changes no other claim |
| SessionLaws.OthersKeepClaims | peer_protocol.cpp:122-204 | No other message changes the claims |
| Session.HandlerQueuesFrames | peer_protocol.cpp:122-248 | Every handler only appends, and only complete frames |
| Session.ProcessQueuesFrames | peer_protocol.cpp:76-120 | So does every call of process_message |
| PeerProtocols.PeerProtocol.constructor | peer_protocol.hpp:81-89 | A session starts before the handshake, holding nothing, its handshake queued |
| PeerProtocols.PeerProtocol.GetMessage | peer_protocol.cpp:63-72 | Takes the first queued message and changes nothing else |
| PeerProtocols.PeerProtocol.GetPieceIndex | peer_protocol.cpp:215-235 | The 20-attempt loop equals its specification; a kept piece gets a fresh buffer |
| PeerProtocols.PeerProtocol.CreateRequest | peer_protocol.cpp:237-248 | The loop queues exactly the requests of the piece, in order |
| PeerProtocols.PeerProtocol.ProcessChoke | peer_protocol.cpp:127-134 | The new state is that of the specification, which ChokeGivesBack describes |
| PeerProtocols.PeerProtocol.ProcessPiece | peer_protocol.cpp:175-194 | Equals its specification, described by ForeignBlockIgnored, BlockIsBuffered, LastBlockWritesAndAsks and ThrowsIff |
| PeerProtocols.PeerProtocol.StorePiece | peer_protocol.cpp:185-188 | One call on the files with the whole buffer, then nothing in hand |
| PeerProtocols.PeerProtocol.ProcessFrame | peer_protocol.cpp:112 | The dispatch table equals the specification for every id, each described by a law in SessionLaws |
| PeerProtocols.PeerProtocol.ProcessMessage | peer_protocol.cpp:76-120 | The object's whole new state, what it consumed and how it ended are those of the framing specification, for any bytes; StreamLaws says what that does to a stream |
| PeerProtocols.PeerProtocol.ProcessOne | peer_protocol.cpp:97-117 | One turn of the loop, the same way |
| Swarms.DrawConserves | piece_list.cpp:17-35 | A draw keeps every number in exactly one place; what the session held before counts as lost |
| Swarms.MessageConserves | peer_protocol.cpp:127-194 | So does a message: the piece stays, goes back, or goes to the files |
| Swarms.StepConserves | peer_protocol.cpp:127-235 | So does every step of any session |
| Swarms.StepKeepsInv | peer_protocol.cpp:127-235 | Every step also keeps each session's buffer equal to what its received blocks make, and every delivery complete |
| SwarmRuns.RunKeepsInv | peer_protocol.cpp:127-235 | Every run keeps this invariant |
| SwarmRuns.OwnershipIsExclusive | peer_protocol.cpp:127-235 | In every interleaving no two sessions hold a piece, no piece is written twice, and a held piece is nowhere else |
| SwarmRuns.NumbersArePartitioned | piece_list.cpp:17-41 | Held, waiting, written and lost partition the numbers handed out, which never pass the last piece |
| SwarmHistories.WrittenBytesCameInMessages | peer_protocol.cpp:175-185 | Whoever sends what: for every written piece there is a session, the draw that gave it the piece and a later message to it, such that each byte is that of the first accepted payload among the PIECE messages for it the session got in between |
| SwarmRuns.WrittenBytesWereReceived | peer_protocol.cpp:182-185 | Every byte of a written piece is that of the first accepted of its session's blocks; the row above says which messages these are |
| SwarmRuns.DownloadsAreCorrect | peer_protocol.cpp:175-194 | With honest blocks every piece written in any run is the torrent's |
| SwarmRuns.MisuseUnreachable | piece.cpp:63-69 | In every reachable state a fitting block for the piece in hand is refused exactly when it straddles |
| SwarmClaims.ClaimHasOrigin | peer_protocol.cpp:153-168 | In every run, a claim a session goes by was announced by its last BITFIELD or a later HAVE, or the session came with it |
| SwarmClaims.KeptWasClaimed | peer_protocol.cpp:221-247 | In every run, a piece drawn and kept was claimed in this way and is asked for, block by block |
| SwarmWitnesses.SomeRunWrites | peer_protocol.cpp:127-194 | Every piece the allocator gives a size is written by some run |
| SwarmWitnesses.SomeRunWritesAll | peer_protocol.cpp:127-194 | With any contents for the pieces, some honest run writes every piece up to a given one, if these have bytes |
| SwarmWitnesses.LastPieceWrittenIff | piece_list.cpp:28-32 | Some run writes the last piece if and only if the allocator's size for it is not 0 |
| SwarmWitnesses.LostIff | peer_protocol.cpp:127-235 | A run loses a piece if and only if a session that holds one draws again, is refused a block, or closes |
| SwarmWitnesses.SecondUnchokeLoses | peer_protocol.cpp:136-141 | Two unchokes lose piece 0 |
| SwarmWitnesses.NothingReturnedIff | peer_protocol.cpp:130-226 | The allocator at some moment holds a number below 0 if and only if it did at the start, or a choke with nothing in hand or an attempt that drew nothing occurred |
| SwarmWitnesses.EarlyChokeReturnsNothing | peer_protocol.cpp:127-134 | A first choke puts -1 into the allocator |
| SwarmWitnesses.GetsReturned | peer_protocol.cpp:215-235 | A session that claims everything can get any returned piece that has bytes, however many are before it |
| SwarmWitnesses.ChokedPieceIsDelivered | peer_protocol.cpp:127-134 | After a choke the number is in the allocator, and some run in which only a new session acts delivers that piece |
| SwarmRuns.AcquireIsARun | peer_protocol.cpp:215-235 | The uninterrupted attempt loop is one of the interleavings |
| SwarmRuns.HandlerIsARun | peer_protocol.cpp:122-248 | So is every uninterrupted handler that does not throw, and it moves no other session |
| SwarmStreams.ProcessIsARun | peer_protocol.cpp:76-120 | So is every call of process_message on any bytes, up to the throw, which closes the session, if it throws |
| SwarmStreams.ReadIsARun | client_logic.cpp:26-71 | So is every read callback, on any chunks, including one that throws after earlier chunks were handled |
| ReadLoops.FineReadIsOneCall | client_logic.cpp:26-71 | A read callback that does not throw has the effect of one process_message call on all it read |
| ReadLoops.SettledInAnyState | peer_protocol.cpp:97-108 | Whether the buffer holds only an incomplete message depends on its bytes alone, not on the handler's state |
| ReadLoops.EarlyRejectSeesTheCut | client_logic.cpp:39-54 | A stream of a handshake and plain messages, in any chunks, is refused exactly when the fifth byte is above 8 and after some chunk 6 to 67 bytes have arrived |
| ReadLoops.EveryCutReadIff | client_logic.cpp:39-54 | After the handshake, a stream of messages and keep-alives is read under every cut if and only if each message fits the buffer and has an id up to 8 or at most six bytes |
| ReadLoops.BytewiseRefused | client_logic.cpp:39-54 | Any other stream is refused when it comes byte by byte |
| ReadLoops.CutRefused | client_logic.cpp:39-54 | Any cut that stops just before the byte that is one too many and then gives it alone is refused |
| ReadLoops.WholeStreamRead | client_logic.cpp:56-64 | In one chunk every stream of complete messages is read |
| ReadLoops.PortSeesTheCut | client_logic.cpp:45-46 | A seven-byte PORT message is read in one part and refused when its last byte comes apart |
| ReadLoops.LeftoverIsPlain | client_logic.cpp:39-54 | Whatever part of a plain stream has arrived, the leftover is shorter than the buffer and passes the early check |
| ReadLoops.PlainStreamAlwaysRead | client_logic.cpp:26-71 | Reading a plain stream, however cut, never triggers the early check or the space check and equals one parse |
| ClientLogics.ClientLogic.constructor | client_logic.hpp:27-49 | The connection starts by waiting to write its handshake |
| ClientLogics.ClientLogic.StaysValid | client_logic.hpp:44-49 | What other connections do to the shared allocator and files keeps this connection's invariant |
| ClientLogics.ClientLogic.Take | client_logic.cpp:29-70 | Appending, parsing, checking and compacting equal the specified turn |
| ClientLogics.ClientLogic.Compact | client_logic.cpp:56-64 | The unprocessed bytes, and only they, are at the front of the buffer |
| ClientLogics.ClientLogic.OnRead | client_logic.cpp:17-75 | Without a throw: everything that arrived is parsed as by one call, and the socket is watched for writing exactly when something is queued |
| ClientLogics.ClientLogic.OnWrite | client_logic.cpp:77-96 | Every queued message is written once, in order, and then the socket is watched for reading |
| ClientLogics.WrittenStreamParsesBack | client_logic.cpp:86-94 | What has been written between callbacks parses back to the first messages queued, in order |
| Layouts.PlaceFile | torrent_file.cpp:271-284 | One turn of the loop is the closed form for that file |
| Layouts.TorrentFile.FillPieceOffsets | torrent_file.cpp:264-291 | All positions, the full size and the last piece size in closed form; fails exactly without pieces |
| Layouts.StartPosition | torrent_file.cpp:272-273 | A file starts at the bytes before it plus one piece length per earlier file that ends on a boundary |
| Layouts.EndPosition | torrent_file.cpp:275-281 | It ends its size later, plus a piece length if it ends on a boundary |
| Layouts.LayoutChained | torrent_file.cpp:269-285 | Consecutive files leave no gap: each starts where the one before stops |
| FileSets.File.WritePiece | files.cpp:109-127 | The file gains exactly its slice of the piece at its offset, and its bit is set (BitAfterCall); another piece changes neither contents nor bits |
| FileSets.BitAfterCall | files.cpp:126 | A call sets the bit of its piece to true if the file contains it, and leaves every other bit |
| FileSets.InOrder | files.cpp:142-154 | Along a chained layout piece ranges are ordered, which the search relies on |
| FileSets.Search | files.cpp:142-154 | Stops at a place from which all files of the piece lie ahead |
| FileSets.SearchReturnsIff | files.cpp:142-154 | The recursion returns exactly for numbers up to the last file's last piece |
| FileSets.Files.WritePiece | files.cpp:156-166 | Every file gains its own slice and bit and no more; the files called are consecutive, each is called exactly once and the others not at all, and they include all that contain the piece and at most one that does not |
| FileSets.Files.Scan | files.cpp:160-165 | The loop calls the files from the one found up to the first that does not start in the piece, each once |
| FileSets.Accounted | files.cpp:156-166 | Calling just these files is dispatching the piece |
| FileSets.NoneMissed | files.cpp:160-165 | The forward scan stops only after the last file of the piece |
| Placement.ContainedSliceFits | files.cpp:115-116 | With pieces of their proper length every slice lies inside its piece |
| Placement.SlicesTile | files.cpp:115-116 | The slices of the files of a piece are consecutive and cover it from 0 to its end |
| Placement.TakenIsSize | files.cpp:109-127 | The slices of a file add up to its size exactly when it does not end on a boundary, else to one piece more |
| Placement.Misplacement | files.cpp:118-120 | By how many bytes each slice is written past its place |
| Placement.WellPlacedIff | files.cpp:118-120 | A slice lands in its place exactly when it is the first and no earlier file ended on a boundary, or is not and one did |
| Placement.StoredDisjoint | files.cpp:118-123 | Different pieces go to disjoint parts of a file |
| Placement.OrderIrrelevant | files.cpp:109-127 | The same distinct pieces in any order leave the same file |
| Placement.AlignedLastSlice | files.cpp:115-123 | The last slice of a file that ends on a boundary is a whole piece length, and where behind the file's end it goes |
| Placement.OnePieceHolds | files.cpp:109-127 | A file inside one piece gets as many bytes as it has, from one piece length later for every earlier file that ends on a boundary |
| Placement.LongerFileHasHole | files.cpp:118-120 | A file over several pieces never gets the byte after its first slice, whatever is written |
| Placement.CorrectIffOnePiece | files.cpp:109-127 | Every finished file of every torrent is correct if and only if it does not end on a boundary, lies inside one piece, and the torrent repeats its bytes at that distance |
| Placement.DispatchesReplay | files.cpp:156-166 | After any sequence of calls of Files::write_piece each file holds what replaying its own writes gives |
| Placement.DispatchesMark | files.cpp:126 | After any sequence of calls of Files::write_piece a bit of a file is set if and only if it was before or one of the calls was for its piece |
| EndToEnd.AllSlicesFitIff | files.cpp:115-123 | Every slice of every completable piece lies inside it exactly when no file ends, by the layout's count, too late in the last piece |
| EndToEnd.UnalignedEndsFit | torrent_file.cpp:276-290 | This holds when no file ends on a boundary |
| EndToEnd.AlignedFileOverruns | torrent_file.cpp:276-290 | It fails for a file of exactly one piece followed by a shorter one |
| EndToEnd.EveryWriteFits | peer_protocol.cpp:185 | In every run, each piece passed on is one the layout knows, and under these conditions fits its slices and has the length that makes them tile it |
| EndToEnd.DownloadedIffOnePiece | peer_protocol.cpp:185 | In every honest run, on every torrent whose slices fit, a file whose pieces have all been delivered, in any order, is correct exactly under these three conditions |
| EndToEnd.SomeRunFinishesIff | torrent_file.cpp:269-290 | Some honest run delivers all pieces of a file if and only if the allocator hands out the layout's last piece for it and that piece is not empty |
| EndToEnd.DriftedFileNeverFinished | torrent_file.cpp:276-290 | With two files of exactly one piece and a shorter third, all slices fit and yet no run finishes the second |
| EndToEnd.SomeRunDownloadsIff | peer_protocol.cpp:185 | Some honest run leaves a file finished and correct if and only if it can be finished and meets the three conditions |
| Bencode.ProcessInteger | bedecoder/be_parser.cpp:21-39 | Equals the grammar's integer on every input |
| Bencode.ProcessString | bedecoder/be_parser.cpp:41-60 | Equals the grammar's string, lengths that overrun the source included |
| Bencode.ProcessStruct | bedecoder/be_parser.cpp:62-80 | The loop equals the recursive grammar, truncated input included |
| Bencode.ParseAll | bedecoder/be_parser.cpp:4-19 | Terminates on every input with the grammar's tokens or its error |
| Bencode.Item | bedecoder/be_parser.cpp:82-115 | Every item that parses moves the offset forward |
| BencodeLaws.DocumentBalanced | bedecoder/be_parser.cpp:4-19 | Every normal return on any input has brackets that match by kind |
| BencodeLaws.ItemReads | bedecoder/be_parser.cpp:21-115 | The encoding of any value, anywhere in a source, parses to exactly its tokens and stops at its end |
| BencodeLaws.DocumentReads | bedecoder/be_parser.cpp:4-19 | A source that is one encoding parses to exactly its tokens |
| BencodeLaws.SlicesAreExact | bedecoder/be_parser.cpp:34-57 | String and integer tokens slice out exactly their text |
| BencodeLimits.IntegerOkIff | bedecoder/be_parser.cpp:21-39 | An integer is accepted exactly when blanks, a sign and digits, or nothing, stand between 'i' and 'e', and its token is that text |
| BencodeLimits.StringOkIff | bedecoder/be_parser.cpp:41-60 | A string is accepted exactly when digits and ':' stand there, and its token is as long as they say even if the source is not |
| BencodeLimits.StringRefusedIff | bedecoder/be_parser.cpp:50-51 | Anything else that starts with a digit is refused |
| BencodeLimits.OtherRefused | bedecoder/be_parser.cpp:110-111 | So is anything that starts with none of the four kinds |
| BencodeLimits.DocumentReadsAll | bedecoder/be_parser.cpp:12-16 | Any number of encodings one after the other parse to their tokens one after the other |
| BencodeLimits.TruncatedListAccepted | bedecoder/be_parser.cpp:71-79 | A list without its closing bracket at the end of the source is read as if it had one |
| BencodeLimits.TruncatedDictAccepted | bedecoder/be_parser.cpp:71-79 | So is a dictionary |
| BencodeLimits.DictTakesAnyItems | bedecoder/be_parser.cpp:71-78 | A dictionary takes any items, paired as keys and values or not |
| BencodeLimits.BadItemSpoilsStruct | bedecoder/be_parser.cpp:71-75 | An item that is refused spoils the list or dictionary around it |
| BencodeLimits.BadItemSpoilsDocument | bedecoder/be_parser.cpp:12-16 | And the document, whatever was read before it |
| InfoSlices.CalculateInfoSlice | torrent_file.cpp:360-424 | The two scans and the length arithmetic equal the specification, failures included |
| InfoSlices.LocateInItems | bedecoder/be_parser.cpp:62-80 | A token that opens an item carries that item's tokens behind it, and what follows stands where the item ends |
| InfoSlices.RunOverDict | torrent_file.cpp:383-393 | Counting dictionary depth from a dictionary's first token stops exactly after its last, at any nesting |
| InfoLaws.PrefixMeasured | torrent_file.cpp:416-418 | The digit count of a string's length is the length of its prefix exactly when that has no leading 0 and at most 19 digits |
| InfoLaws.InfoSliceExactIff | torrent_file.cpp:376-424 | For any source that parses, with a dictionary after the first "info": the slice is its exact bytes if and only if the next token is not a string with a bad prefix; none is taken if nothing follows |
| InfoLaws.SliceBeforeString | torrent_file.cpp:416-424 | Before a string token the slice is undefined if the string is empty, and otherwise runs on into its prefix by as many bytes as that is longer than its number |
| InfoLaws.NoInfoIff | torrent_file.cpp:364-374 | Nothing is hashed for want of a key exactly when no token reads "info" |
| InfoLaws.LastInfoUndefined | torrent_file.cpp:376-378 | If the first such token is the last, the source reads past the list |
| InfoLaws.OutOfRangeIff | torrent_file.cpp:421-424 | substr throws exactly when the slice would start behind the source |
| InfoLaws.InfoBeforeBracketInvalid | torrent_file.cpp:383-399 | Before a closing bracket the depth wraps around and no slice is taken |
| MetainfoLaws.ScalarSlice | torrent_file.cpp:378-424 | For a string or integer value the slice starts at its text, or is undefined before an empty key |
| MetainfoLaws.ListSlice | torrent_file.cpp:378-424 | For a list value the slice is "l", or undefined before an empty first string |
| MetainfoLaws.EncodedInfoIsHashed | torrent_file.cpp:360-424 | For every encoded metainfo dictionary, whatever its info value, the hashed slice is exactly the encoding of that value if and only if it is a dictionary and the next key is not empty |

## Left out

- Sockets, poller, thread pool, logging, `main.cpp`, `init_http_request.cpp`: I/O over a library that is not part of this model.
- A partial or failing socket write, and a read that reports an error as a negative count.
- `open_file`, `create_absolute_path`, failing or interrupted `pwrite`, and file descriptors.
- SHA-1, the random peer id, the contents of the handshake; its 68 bytes are opaque.
- `TokenListProcessor`, `fill_info`, `fill_pieces`, the other metainfo fields.
- `ActiveSockets`, `DownloadManager`, `TrackerResponse`: a set wrapper, URL text and field filling.
- `HaveMessage` encoding, which the client never sends; reading HAVE is modelled.
- `number_of_pieces()` of the allocator, which nothing calls.
- Liveness: nothing is claimed about a piece being drawn or a download ending; the 20 attempts can draw the same piece each time.
- What a step with undefined behaviour does to the other sessions.
- PieceRuns.RejectedIffStraddles: speaks of sequences without an empty range before the add; an empty first range, which the source also stores, is treated apart in `EmptyFirstAddBlocks`.
- SwarmRuns.DownloadsAreCorrect: speaks of runs in which no step is undefined, because what such a step writes to memory is not defined.
- SwarmWitnesses.LastPieceWrittenIff: assumes piece numbers and sizes that fit the 32-bit fields of one PIECE message.
- SwarmClaims.ClaimHasOrigin: a HAVE too short for its field may announce any piece, and a piece the set has no room for is claimed or not as memory happens to be.
- SwarmStreams.ReadIsARun: speaks of one uninterrupted callback in which no turn is undefined; interleavings inside a callback are the runs themselves.
- EndToEnd.SomeRunFinishesIff: assumes piece numbers and sizes that fit the 32-bit fields of one PIECE message.
- EndToEnd.DownloadedIffOnePiece: assumes that the slices fit (`AllSlicesFitIff`), because otherwise the source reads past a buffer.
- FileSets.Files.WritePiece: for numbers past the layout's last piece the source does not return (`SearchReturnsIff`).
