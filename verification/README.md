# A verified model of the torrent client's core

The project models the parts of the BitTorrent client where an error would corrupt a download
or stop it: the concurrent piece download engine, the serving of blocks to other peers, the
reassembly of files, the bencoding behind the info hash, the bitfield, and the peer wire
protocol. `dafny verify dfyconfig.toml` checks all of it.

## How it is organised

| file | what it holds |
|---|---|
| `Base`, `Messages` | bytes, widths, sums and occurrence counts; the `Request` and `Piece` messages |
| `Torrent`, `BitField`, `Restart` | piece geometry and digests; the bitfield class against a plain set; reopening a saved tracker |
| `Pending`, `Sweeps`, `Conservation`, `PendingPiece` | what time-out, send, receive and retry do to a piece under its lock; which requests a sweep takes back and sends; the block accounting they keep; the class that does the same with loops over lists of pointers |
| `Reassembly` | sorting and concatenating the received blocks |
| `Download`, `DownloadInvariant`, `DownloadTheorems`, `DownloadWitness`, `HonestRuns` | the download engine as a step machine, its invariant, and the theorems over every run |
| `EngineSteps`, `Progress`, `Completion` | one undisturbed turn of the scheduler and the whole way of one block; the engine never gets stuck, and can complete from every state while the data exist; what cancelling too early does |
| `Upload`, `System`, `UploadSteps`, `SystemWitness`, `TwoClients` | the 75 upload slots as a step machine; what a handler stores, a cancel removes and the sender serves; downloads, uploads and the final assembly interleaved; a seeder and a leecher together |
| `Storage`, `Wire`, `Transfer` | reading blocks from piece files, encodings and framing, and the whole way from a seeder's file to a leecher's |
| `Paths`, `Disk`, `Assembly`, `SingleFile`, `Assembler`, `Delivery`, `AssemblyWitness` | cleaned paths and the client's own file names; the calls into the operating system; cutting the pieces into files inside one directory tree that also holds the piece files; the same as loops over open files; what holds for a completed download, and names that break it |
| `Bencode`, `BencodeText`, `BencodeRoundTrip`, `BencodeLocality`, `BencodeCanonical`, `BencodeWitness`, `BencodeCodec` | values, printing and decoding; the printed text byte by byte and the texts read as numbers; round trips; what a decoder looks at, and truncated input; the canonical grammar and the info hash; accepted input that is not canonical; the decoder and printer as loops |

## Reading the step machines

A step of the download engine is one atomic access to shared state, or one critical section of
a piece lock as far as the piece itself goes. The slots, the bitfield, the byte counter and the
piece files are read without that lock, so the end of a receiver's critical section is split:
count the block, compare the digest, write the file (in any number of partial writes with any
content), set the bit, clear the slot, unlock; or fail, roll the counter back, retry. Every
block a peer sends, every clock reading, every choice of peer, every failed send or write and
every scheduling decision is arbitrary. A theorem about `IsExecution` therefore speaks of every
interleaving of one scheduler and any number of receivers. The two panics, the "two go-routines
verified same piece" warning and a lost compare-and-swap are recorded in `faults`; `NoFaults`
proves that the set stays empty.

A piece object is named by its index. `StartedOnce` justifies that: no index ever gets a second
object. A receiver may hold a stale pointer, and the invariant says to what: a verified piece.

SHA-1 is a parameter of the model, an arbitrary function from bytes to bytes.

`Torrent.MetaInfo.Geometry` collects what the code relies on and `validate` in
torrent/metainfo.go does not check: a positive piece length below 2^32, a last piece that is
neither empty nor too long, and a digest table below 4 GiB.

## Where the code does less than it seems to promise

Each of these is proved with its exact condition, and shown to occur:

- A request for an index that the bitfield has no bit for panics in `Check` and ends the client.
  A run panics if and only if a handler takes such a request (`System.PanicsIffAskedBeyond`), and
  one is enough from any start (`System.PanicIsReached`).
- The offset into the digest table is computed in 32 bits: piece 214748364, if a torrent has that
  many, makes the slice bounds cross and panics, and the next one is checked against bytes 4 to 24
  of the table (`Torrent.PieceHashExact`).
- A block that ends at or past 4 GiB cannot be served: the end of the slice wraps and the
  seeder panics (`Storage.ReadRequestExact`).
- A payload of 2^32 - 1 bytes or more desynchronises the stream (`Wire.FramingExact`).
- A `Piece` with an empty block serializes to a message that `Deserialize` refuses
  (`Wire.ParseExact`).
- `Downloaded` can equal the torrent's size although nothing is verified: while a receiver still
  holds the lock of a full piece (`DownloadTheorems.ByteAccounting` gives the condition,
  `DownloadWitness.TotalBeforeVerified` a run).
- Assembling writes into the directory that holds the piece files, and nothing checks the names.
  A multi-file torrent is assembled as it should be if and only if its outputs can be created, no
  output is a piece file, no file length is negative, and files with the same path are to hold the
  same bytes (`Delivery.AssembleCompleted`); a single file, if and only if it can be created and is
  no piece file (`Delivery.AssembleCompletedSingle`). A torrent named "." with a file "0.bin" is
  waited for for ever (`AssemblyWitness.NamedLikeAPiece`), of two files with the same path the
  first is lost (`AssemblyWitness.SamePathTwice`), and one with a negative length can be downloaded
  to the end but never assembled (`AssemblyWitness.NegativeLength`).
- For the same reason a verified piece stays verified, and what is served is verified, only as long
  as the torrent is not completed or no output takes the place of the piece's file
  (`System.VerifiedForever`, `System.ServedIsVerified`). Otherwise the file is emptied with its bit
  set (`System.OverwriteBreaks`) and whatever was written there is served
  (`SystemWitness.LostIsServed`).
- The update loop takes 0 bytes left for completion and cancels the download. If the last piece is
  then refused, the scheduler has stopped and the download never completes
  (`Completion.CancelledTooEarly`; a run of it in `DownloadWitness.CancelledWitness`).
- The decoder slices a string without a bounds check, and a Go slice may be sliced up to its
  capacity. A printed value that lost its tail is therefore accepted, with foreign bytes at its
  end, exactly if it is a string cut behind its colon and the capacity reaches far enough
  (`BencodeLocality.TruncationExact`; `BencodeLocality.CutIsAccepted` for `5:hel`). Lists and
  dictionaries are never accepted without their tail.
- The decoder accepts numbers with a plus sign, `i-0e`, lengths with leading zeros, and
  dictionaries in any key order or with repeated keys (the lemmas of `BencodeWitness`). Printing
  such a value does not give the original bytes, so the info hash of such a torrent is not taken
  over what its file holds (`BencodeCanonical.PrintsBackIffCanonical`, `BencodeCanonical.InfoHash`,
  `BencodeWitness.InfoIsRewritten`).
- The branch "slot was taken away" in the scheduler is dead: only the scheduler fills slots
  (`DownloadTheorems.NoFaults`).

## Model

| member | source | states |
|---|---|---|
| DownloadTheorems.NoFaults | cmd/cli/client/internal/status/download.go:232-387 | in every state of every execution no panic, no double verification and no lost slot has occurred, whatever peers send and however goroutines interleave |
| DownloadTheorems.BlocksConserved | cmd/cli/client/internal/status/download.go:75-309 | for every started piece, Pending plus InFlight is as a multiset the tiling of the piece, and Received answers exactly the InFlight entries flagged as received |
| DownloadTheorems.VerifiedStorage | cmd/cli/client/internal/status/download.go:325-350 | a set bit means a file on disk with the piece's exact length and digest |
| DownloadTheorems.RunIsMonotone | cmd/cli/client/internal/status/download.go:325-350 | along a run bits are never cleared, piece objects never vanish and the file of a verified piece is never rewritten |
| DownloadTheorems.StepIsMonotone | cmd/cli/client/internal/status/download.go:325-350 | the same for one step of any goroutine |
| DownloadTheorems.Lifecycle | cmd/cli/client/internal/status/download.go:171-236 | each index is unverified, in exactly one slot, or verified; slot and verified overlap only between setting the bit and clearing the slot |
| DownloadTheorems.StartedOnce | cmd/cli/client/internal/status/download.go:184-236 | an index is started at most once per run |
| DownloadTheorems.VerifiedOnce | cmd/cli/client/internal/status/download.go:350-387 | an index is verified at most once per run, and never if it was verified before |
| DownloadTheorems.ByteAccounting | cmd/cli/client/internal/status/download.go:301-347 | 0 <= Downloaded <= total at every instant, and Downloaded is the total if and only if each piece is verified or counted in full by a receiver that still holds its lock |
| DownloadTheorems.SettledAccounting | cmd/cli/client/internal/status/download.go:301-347 | with no receiver past a last byte, Downloaded is the verified sizes plus what the occupied slots received, and equals the total exactly when every bit is set |
| DownloadTheorems.LeftIsSane | cmd/cli/client/client.go:370-420 | what is announced as left is between 0 and the total, is 0 after completion, and before that only while a full piece is being checked |
| Completion.CompletionStaysReachable | cmd/cli/client/internal/status/download.go:43-393 | from every state of every execution whose scheduler was not stopped, and whatever peers sent before, steps lead to completion as long as data with the right digests exist |
| Completion.CancelledTooEarly | cmd/cli/client/client.go:407-431 | if nothing is left while a receiver holds a piece that will be refused, the client's cancellation can stop the scheduler with the piece unverified, and then the download never completes |
| Completion.StoppedNeverCompletes | cmd/cli/client/internal/status/download.go:54-60 | a stopped scheduler never closes `completed` |
| Completion.Fill | cmd/cli/client/internal/status/download.go:241-319 | honest blocks for a piece whose requests are all in flight fill it |
| Completion.Attempt | cmd/cli/client/internal/status/download.go:319-390 | a started piece can be verified, or starts over with nothing received; it is verified if all it held was honest |
| Progress.NeverStuck | cmd/cli/client/internal/status/download.go:43-393 | until the scheduler ends, some step of the scheduler or of a lock holder is enabled |
| Progress.Release | cmd/cli/client/internal/status/download.go:325-390 | a lock holder can finish: its piece is verified if its data are good, and is empty in its slot otherwise |
| EngineSteps.TurnExact | cmd/cli/client/internal/status/download.go:53-238 | one undisturbed turn of the scheduler's loop, for every clock, every outcome of the sends and every pick: each piece in a slot is swept once, then the download is declared complete, or the picked piece is started in the first free slot, or nothing else changes |
| EngineSteps.ScanWalks | cmd/cli/client/internal/status/download.go:67-159 | the scan sweeps every piece in a slot exactly once, touches no other piece and counts the free slots |
| EngineSteps.SeekWalks | cmd/cli/client/internal/status/download.go:171-182 | a new piece goes to the first free slot, and without one the loop starts over |
| EngineSteps.StopExact | cmd/cli/client/internal/status/download.go:53-60 | the scheduler can be stopped at the top of its loop and nowhere else |
| EngineSteps.BlockExact | cmd/cli/client/internal/status/download.go:245-390 | the whole way of any message from any reachable state: dropped without a slot for its piece or if not awaited, stored otherwise, and after the last byte the piece is on disk with its bit set and its slot free, or, refused or not written, off the counter and back to pending in its slot |
| EngineSteps.LookWalks | cmd/cli/client/internal/status/download.go:251-263 | a receiver takes the first slot that holds the message's piece, and drops the message if none does |
| EngineSteps.LocksExclude | cmd/cli/client/internal/status/download.go:75-75 | while a receiver is past the last byte of a piece, no sweep and no other receiver gets at that piece |
| Progress.ScanOn | cmd/cli/client/internal/status/download.go:67-182 | the rest of a scan can send all that is pending in the slots it visits, and comes round |
| DownloadTheorems.LeftExact | cmd/cli/client/client.go:370-420 | with no receiver past a last byte, what is left is the sum of what the pieces still miss |
| DownloadTheorems.CompletionIsSound | cmd/cli/client/internal/status/download.go:67-165 | `completed` is closed at most once and only with all slots empty, all bits set and every byte counted, although slots are counted one by one while receivers run |
| DownloadTheorems.MeasureStep | cmd/cli/client/internal/status/download.go:75-158 | every step lowers the measure of outstanding work by exactly the blocks it starts, sends or stores, and raises it by exactly the blocks it times out or retries |
| DownloadTheorems.WorkIsBounded | cmd/cli/client/internal/status/download.go:75-309 | over a run, blocks started, sent and stored are bounded by the initial work plus time-outs and retries |
| DownloadTheorems.RequestsAreCounted | cmd/cli/client/internal/status/download.go:78-157 | sends of a piece equal its time-outs plus its retried blocks plus its blocks in flight; with neither, a verified piece was requested block by block exactly once |
| DownloadTheorems.Reachable | cmd/cli/client/internal/status/download.go:43-393 | every state of every execution satisfies the engine's invariant |
| DownloadInvariant.StepKeepsInv | cmd/cli/client/internal/status/download.go:43-393 | every step of every goroutine keeps the invariant |
| DownloadInvariant.InitInv | cmd/cli/client/internal/status/status.go:132-177 | a tracker opened on verified files satisfies it |
| DownloadInvariant.KeepSweepSlot | cmd/cli/client/internal/status/download.go:75-158 | timing out and sending keeps it, even through a pointer to a piece that just left its slot |
| DownloadInvariant.KeepStartPiece | cmd/cli/client/internal/status/download.go:203-236 | starting a piece keeps it |
| DownloadInvariant.KeepEnter | cmd/cli/client/internal/status/download.go:265-309 | receiving any block, late, duplicate or unknown, keeps it |
| DownloadInvariant.KeepCheckHash | cmd/cli/client/internal/status/download.go:319-327 | comparing the digest keeps it |
| DownloadInvariant.KeepFileStep | cmd/cli/client/internal/status/download.go:339-350 | partial, complete and failed writes, the rollback of the counter, setting the bit and unlocking keep it |
| DownloadInvariant.KeepRetry | cmd/cli/client/internal/status/download.go:330-347 | a retry keeps it and finds no pending request |
| DownloadInvariant.KeepRelease | cmd/cli/client/internal/status/download.go:385-390 | clearing the slot keeps it, and the slot still holds that piece |
| DownloadInvariant.KeepScan | cmd/cli/client/internal/status/download.go:67-182 | counting free slots one at a time, finishing and looking for a free slot keep it |
| DownloadWitness.TotalBeforeVerified | cmd/cli/client/internal/status/download.go:306-330 | a concrete run reaches Downloaded equal to the total with no bit set and a digest that will be refused |
| DownloadWitness.CancelledWitness | cmd/cli/client/client.go:407-431 | that concrete run goes on to a cancelled download that never completes |
| HonestRuns.LeecherRebuildsSeeder | cmd/cli/client/internal/status/download.go:241-393 | over every interleaving, order, duplication and time-out, if the blocks that arrive for a piece are parts of a seeder's file then what is checked and what is stored is that file |
| HonestRuns.HonestRun | cmd/cli/client/internal/status/download.go:241-393 | along a run all stored blocks, all data in hand and any newly verified file agree with the honest data |
| Conservation.TilingShape | cmd/cli/client/internal/status/download.go:217-230 | block k of a tiling begins at k times 16 KiB, is not empty, is full unless it is the last, and the blocks end exactly at the piece's end |
| Conservation.TilingBytes | cmd/cli/client/internal/status/download.go:217-230 | the block lengths add up to the piece size |
| Conservation.StartConserves | cmd/cli/client/internal/status/download.go:208-230 | a new piece holds its whole tiling and is not complete |
| Conservation.TimeOutConserves | cmd/cli/client/internal/status/download.go:77-109 | timing out moves blocks without losing or doubling one, keeps flagged entries and adds exactly the expired requests to the outstanding work |
| Sweeps.TimeOutExact | cmd/cli/client/internal/status/download.go:77-109 | exactly the unanswered requests whose clock reading is more than 8 seconds past their send time go behind the pending ones, the rest stays in flight, and nothing changes if there is none |
| Sweeps.SendExact | cmd/cli/client/internal/status/download.go:111-157 | exactly the requests that went through are put in flight, unanswered and with the clock reading of their send; the others stay pending |
| Sweeps.SweepExact | cmd/cli/client/internal/status/download.go:75-158 | overdue requests are taken back before the sends, so that they can be sent again in the same sweep |
| Sweeps.BlockSize | p2p/messagesv1/request.go:41-46 | blocks are of 16384 bytes, and `Validate` refuses exactly longer requests |
| Conservation.SendConserves | cmd/cli/client/internal/status/download.go:111-157 | sending moves blocks without losing or doubling one and lowers the outstanding work by the number of sends |
| Conservation.SweepConserves | cmd/cli/client/internal/status/download.go:75-158 | both together, received blocks untouched |
| Conservation.ReceiveConserves | cmd/cli/client/internal/status/download.go:265-309 | receiving never exceeds the piece size, stores a block exactly if it answers an unflagged request in flight, and keeps the accounting |
| Conservation.DuplicateIffFlagged | cmd/cli/client/internal/status/download.go:285-309 | the scan for duplicates among received blocks finds one exactly if the matching request is flagged |
| Conservation.CompleteStoresNothing | cmd/cli/client/internal/status/download.go:265-299 | a complete piece absorbs no further block, so a stale pointer does no harm |
| Conservation.CompleteSweepIsIdle | cmd/cli/client/internal/status/download.go:75-158 | sweeping a complete piece changes nothing |
| Conservation.RetryConserves | cmd/cli/client/internal/status/status.go:46-62 | retrying a complete piece succeeds and puts the whole tiling back, each block once, with nothing received |
| Conservation.Accounting | cmd/cli/client/internal/status/download.go:301-309 | bytes received, pending and awaited add up to the size; a piece is complete exactly when nothing is pending or awaited |
| Conservation.CompleteIsQuiet | cmd/cli/client/internal/status/download.go:319-319 | when all bytes are in, nothing is pending, all requests are flagged and the received blocks are the tiling |
| Conservation.RequestCounting | cmd/cli/client/internal/status/download.go:101-155 | sends are explained by time-outs, retries and requests in flight; without the first two no block is requested twice |
| PendingPieces.PendingPiece.constructor | cmd/cli/client/internal/status/download.go:208-230 | the tiling loop fills the pending list with the specified tiling |
| PendingPieces.PendingPiece.TimeOut | cmd/cli/client/internal/status/download.go:78-109 | the loop with nil marks and DeleteFunc leaves no nil and does what the specification says |
| PendingPieces.PendingPiece.SendPending | cmd/cli/client/internal/status/download.go:112-157 | likewise for sending |
| PendingPieces.PendingPiece.IndexOf | cmd/cli/client/internal/status/download.go:267-273 | the index of the first matching request in flight, or -1 |
| PendingPieces.PendingPiece.Receive | cmd/cli/client/internal/status/download.go:267-309 | untracked and duplicate blocks change nothing, others are stored and flagged as specified |
| PendingPieces.PendingPiece.Assemble | cmd/cli/client/internal/status/download.go:320-324 | sorts the received list in place and concatenates the blocks |
| PendingPieces.PendingPiece.Retry | cmd/cli/client/internal/status/status.go:46-62 | fails without effect if something is pending, else moves every request back and clears the rest |
| PendingPieces.DeleteNil | cmd/cli/client/internal/status/download.go:109-157 | dropping nil entries keeps the others in order |
| Pending.Find | cmd/cli/client/internal/status/download.go:267-273 | the first request in flight equal to the one a block answers |
| Reassembly.OrderIndependent | cmd/cli/client/internal/status/download.go:319-324 | any sort of a complete piece's blocks by Begin concatenates to the same data, exactly Size bytes, each offset covered by one block, each block at its own offset |
| Reassembly.SortsAgree | cmd/cli/client/internal/status/download.go:320-320 | although the sort is unstable, any two results are equal |
| Reassembly.SortedIsTiling | cmd/cli/client/internal/status/download.go:319-324 | a complete piece's blocks in order of Begin answer the tiling in order |
| Reassembly.DistinctBlocks | cmd/cli/client/internal/status/download.go:285-308 | no two received blocks of a complete piece overlap |
| Reassembly.HonestBlocksRebuild | cmd/cli/client/internal/status/download.go:319-324 | if every received block is a part of some data of the right size, the piece is that data |
| Reassembly.SortingConserves | cmd/cli/client/internal/status/download.go:320-320 | sorting in place keeps the piece's accounting and its data |
| Transfer.EndToEnd | cmd/cli/client/internal/status/download.go:217-324 | tile a stored piece, pass each request over the wire, read it from the file and pass the block back: absorbing the replies in any order with any repetitions completes the piece and rebuilds the file |
| Transfer.FetchReturnsSlice | cmd/cli/client/internal/status/upload.go:67-95 | every request of a tiling passes `Validate`, is served, and its reply is parsed as the exact slice, which answers that request |
| Transfer.AbsorbAllHonest | cmd/cli/client/internal/status/download.go:265-309 | honest blocks in any order keep the piece honest and settle every request they answer |
| Storage.ReadRequestExact | cmd/cli/client/internal/status/status.go:214-233 | a request is answered with the bytes it names if and only if it lies in the file, starts before its end and ends below 4 GiB; the exact condition of each refusal and of the panic |
| Wire.StreamRoundTrip | p2p/messagesv1/decode.go:33-77 | any concatenation of messages and frames of unknown id is read back item by item, in order, nothing lost |
| Wire.FramingExact | p2p/messagesv1/decode.go:33-77 | a frame with any id followed by anything is read back alone if and only if its length fits the 32-bit prefix |
| Wire.FrameIsRead | p2p/messagesv1/decode.go:33-77 | a frame is read whole whatever its id, and the payload of the four bare messages is dropped |
| Wire.ParseExact | p2p/messagesv1/request.go:16-46 | deserializing a serialized message gives it back if and only if its request length is at most 16 KiB and its block is not empty |
| Wire.BlocksFit | p2p/messagesv1/piece.go:25-33 | no block read from the wire overflows the cast of its length to 32 bits |
| Wire.SerializeExact | p2p/messagesv1/base_messages.go:10-121 | every message byte by byte: big-endian length prefix, the type's number, and big-endian fields |
| Wire.ParseBytes | p2p/messagesv1/request.go:29-39 | which payloads each type accepts, and the big-endian numbers read from them |
| Wire.IdentifyBytes | p2p/messagesv1/decode.go:33-77 | a stream is cut by its big-endian length prefix, and the byte behind it is the type |
| Wire.U32Exact | p2p/messagesv1/request.go:20-24 | numbers are written and read with the most significant byte first |
| Wire.SerializePiece | p2p/messagesv1/piece.go:14-23 | the buffer filled in place holds length prefix, type 7, index and begin big-endian at 0, 4, 5 and 9, and the block behind them |
| Wire.SerializeRequest | p2p/messagesv1/request.go:16-27 | the buffer filled in place holds the prefix 13, type 6, and index, begin and length big-endian at 5, 9 and 13 |
| Wire.Reader.ReadFull | p2p/messagesv1/decode.go:36-68 | delivers exactly n bytes, or ends the stream |
| Wire.Reader.Next | p2p/messagesv1/decode.go:33-77 | reads prefix, id and payload in steps and leaves the stream exactly after the frame |
| System.ServedIsVerified | cmd/cli/client/internal/status/upload.go:67-85 | over all interleavings of downloads, uploads and the final assembly, every block sent is the requested range of a verified file, unless the torrent is completed and an output has the path of that file |
| System.PanicsIffAskedBeyond | cmd/cli/client/internal/status/upload.go:123-132 | in a run of all sides the engine records no fault, and a handler panics if and only if it takes a request whose index is at least eight times the bitfield's length in bytes, as long as no output of 4 GiB or more has the path of a piece file |
| System.PanicIsReached | p2p/peer/bitfield/bitfield.go:119-128 | from any start, the first request for such an index is enough |
| System.VerifiedForever | cmd/cli/client/internal/status/download.go:339-350 | once verified, a piece stays verified and its file unchanged, unless the torrent is completed and an output has the path of that file |
| System.OverwriteBreaks | cmd/cli/client/client.go:208-208 | that exception is real in every completed run: creating the output empties the file while its bit stays set |
| System.ClosedWritesNothing | cmd/cli/client/internal/status/download.go:161-165 | once `completed` is closed the engine writes no file |
| System.RestartIsSafe | cmd/cli/client/internal/status/status.go:147-165 | a tracker reopened on a bitfield of one moment and the files of a later one satisfies the engine's invariant, as long as no output took the place of a piece file |
| System.NoneLost | cmd/cli/client/client.go:199-215 | no piece is lost exactly if no output has the path of a piece file |
| SystemWitness.LostIsServed | cmd/cli/client/internal/status/upload.go:67-85 | after an output was written over a piece's file, a request for the piece is answered with what was written |
| TwoClients.StoredIsSeeded | cmd/cli/client/internal/status/download.go:241-393 | if all blocks that reach a leecher for a piece are a seeder's deliveries, in any order and number, the file it stores is the seeder's |
| TwoClients.DeliveredIsHonest | cmd/cli/client/internal/status/upload.go:71-80 | a delivered block repeats the bytes of the seeder's verified file at its offset |
| System.SentAtMostOnce | cmd/cli/client/internal/status/upload.go:62-158 | an accepted request object is handed to `SendPiece` at most once and occupies at most one slot |
| System.NeverOverwritten | cmd/cli/client/internal/status/upload.go:144-158 | an occupied upload slot keeps its object or becomes free, it is never overwritten |
| System.UploadedCounts | cmd/cli/client/internal/status/upload.go:76-87 | `Uploaded` never exceeds the bytes of the blocks sent, and equals them whenever the sender is not between a send and its update |
| System.StepKeepsInv | cmd/cli/client/internal/status/upload.go:44-162 | every step of either side keeps both invariants |
| UploadSteps.FreedOnlyByCancelOrSender | cmd/cli/client/internal/status/upload.go:71-122 | over runs, an occupied slot becomes free only by the sender's own release or by a cancel that a handler took and that names exactly the slot's request |
| UploadSteps.CancelWalks | cmd/cli/client/internal/status/upload.go:111-122 | undisturbed, a cancel frees exactly the slots that hold a request equal to it |
| UploadSteps.MatchedIsNamed | cmd/cli/client/internal/status/upload.go:116-121 | in every state of every run, a request matched by a cancel is equal to it |
| UploadSteps.CancelWasTaken | cmd/cli/client/internal/status/upload.go:105-106 | the cancel a handler is on is one it took before |
| UploadSteps.EntriesWereTaken | cmd/cli/client/internal/status/upload.go:123-142 | every request object holds what some handler took, for a piece that had its bit then |
| UploadSteps.StoreWalks | cmd/cli/client/internal/status/upload.go:144-158 | undisturbed, a handler stores its request in the first free slot and drops it only if there is none |
| UploadSteps.LostRace | cmd/cli/client/internal/status/upload.go:156-158 | a handler that lost the race for a slot starts over with its request in hand |
| UploadSteps.TakesRequest | cmd/cli/client/internal/status/upload.go:130-142 | a request for a piece with a bit is kept as it is, any other is dropped |
| UploadSteps.TakesCancel | cmd/cli/client/internal/status/upload.go:105-111 | a cancel is looked for from the first slot on |
| UploadSteps.SenderFinds | cmd/cli/client/internal/status/upload.go:62-66 | the sender walks to the next occupied slot, and from behind the last one back to the first |
| UploadSteps.SenderServes | cmd/cli/client/internal/status/upload.go:67-92 | a picked request that lies in its file is sent with the bytes it names, its slot freed and its bytes counted; any other is dropped unsent |
| UploadSteps.SendFails | cmd/cli/client/internal/status/upload.go:81-84 | a block that could not be sent frees its slot and is not counted |
| UploadSteps.LeecherGone | cmd/cli/client/internal/status/upload.go:67-95 | a request whose leecher left is passed over and keeps its slot |
| UploadSteps.FreshSlots | cmd/cli/client/internal/status/upload.go:62-66 | a tracker starts with 75 free slots |
| System.BitfieldBytesExact | p2p/peer/bitfield/bitfield.go:16-23 | every piece has a bit and the last byte is needed |
| Upload.StepKeepsInv | cmd/cli/client/internal/status/upload.go:44-162 | every step of a handler, a cancel or the sender, the panicking lookup included, keeps the upload invariant |
| Upload.PanicExact | cmd/cli/client/internal/status/upload.go:130-132 | the only step that panics is looking up an index that has no bit |
| Upload.InvGrows | cmd/cli/client/internal/status/upload.go:130-132 | the upload side tolerates new bits and files appearing at any time |
| Upload.KeepClaim | cmd/cli/client/internal/status/upload.go:144-158 | claiming by compare-and-swap, lost races included, keeps objects in one place |
| Upload.KeepClear | cmd/cli/client/internal/status/upload.go:111-122 | a cancel racing with the sender and with new claims keeps objects in one place |
| Upload.KeepSend | cmd/cli/client/internal/status/upload.go:76-84 | a send, successful or not, keeps the counts and the at-most-once rule |
| Assembly.AssemblyExact | cmd/cli/client/client.go:186-270 | assembling is flawless (pieces intact when copying starts, all copies made, every output holds its range) if and only if the outputs can be created, none is a piece file, the files want no more bytes than there are, and files with the same path agree |
| Assembly.PrepareExact | cmd/cli/client/client.go:187-221 | all outputs can be created if and only if none is a directory and none lies below a file or below another output, and just the directories above them are made |
| Assembly.CreateOneExact | cmd/cli/client/client.go:200-215 | one file of any depth is created if and only if no file is on the way and it is no directory, with its directories |
| Assembly.OutputsExact | cmd/cli/client/client.go:187-208 | plain names put an output below the torrent's directory, component by component |
| Paths.JoinPlain | cmd/cli/client/client.go:187-208 | joining plain names appends them in order |
| Paths.JoinSplit | cmd/cli/client/client.go:187-208 | names are resolved one after the other |
| Paths.JoinDots | cmd/cli/client/client.go:187-208 | empty names and "." are skipped, ".." removes a component and stops at the root |
| Paths.OwnFiles | cmd/cli/client/internal/status/status.go:205-205 | piece `i` is the file "i.bin", the bitfield is "bitfield.bin" |
| Disk.MkdirAllExact | cmd/cli/client/client.go:202-202 | directories can be made if and only if no file is on the way, and exactly those on the way are made |
| Assembly.CopyFilesExact | cmd/cli/client/client.go:244-260 | with no output among the pieces both loops complete if and only if the pieces hold what the files want, and each file's range is written over the start of its output |
| Assembly.CopyFileExact | cmd/cli/client/client.go:246-258 | the inner loop completes if and only if the torrent has that many bytes left, and writes exactly them |
| Assembly.NextChunk | cmd/cli/client/client.go:246-258 | the next chunk can be read from the current piece if and only if the torrent has that many bytes left, and it continues what was copied |
| Assembly.EachHoldsIff | cmd/cli/client/client.go:199-216 | outputs created empty all end up right if and only if those with the same path are to hold the same bytes |
| Assembly.PreparedPieces | cmd/cli/client/client.go:208-208 | creating the outputs leaves the piece files alone if and only if none of them is an output |
| Assembly.OnlyOutputsChange | cmd/cli/client/client.go:186-270 | whatever the names and however it ends, a file that is no output keeps its content |
| Assembly.FirstPieceIsOutput | cmd/cli/client/client.go:246-251 | if the first piece's file is an output and some length is positive, the copy loop never ends |
| Assembly.RangesJoin | cmd/cli/client/client.go:244-260 | the ranges of the files in order are the torrent as far as they reach |
| Assembly.WantedExact | cmd/cli/client/client.go:245-260 | the files want more bytes than their lengths add up to exactly if a length is negative |
| Disk.CopyNExact | cmd/cli/client/client.go:247-247 | copying between two files moves as much as there is and writes it over the target from the given offset |
| SingleFile.SingleExact | cmd/cli/client/client.go:145-185 | a single file is assembled if and only if it can be created and is none of the piece files, and then it is all pieces in order and no other file has changed |
| SingleFile.JoinExact | cmd/cli/client/client.go:156-172 | the output is the pieces in order |
| SingleFile.OutputIsPiece | cmd/cli/client/client.go:156-180 | with a piece file as the output the copying never ends or comes out short |
| Assembler.CopyN | cmd/cli/client/client.go:247-247 | a copy between open files moves both offsets by what was copied |
| Assembler.CopyChunk | cmd/cli/client/client.go:247-256 | one round of the inner loop over open files leaves the handles in step |
| Assembler.CopyFile | cmd/cli/client/client.go:246-258 | the inner loop computes the specified outcome and files |
| Assembler.CopyFiles | cmd/cli/client/client.go:244-260 | both loops compute the specified outcome and files, and `tc` is the sum of the lengths |
| Assembler.CreateFiles | cmd/cli/client/client.go:197-216 | the creation loop, which goes on after a failure, computes the specified directory tree |
| Assembler.AssembleFiles | cmd/cli/client/client.go:186-270 | the whole assembly of a multi-file torrent ends as specified |
| Assembler.AssembleSingle | cmd/cli/client/client.go:145-185 | the whole assembly of a single-file torrent ends as specified |
| Paths.OwnNames | cmd/cli/client/internal/status/status.go:205-205 | every piece has a file of its own, different from the saved bitfield's |
| Delivery.CompletedCanBeAssembled | cmd/cli/client/client.go:143-264 | after completion the piece files have the sizes and digests that assembling requires and add up to the torrent |
| Delivery.AssembleCompleted | cmd/cli/client/client.go:186-270 | assembling a completed multi-file torrent is flawless if and only if its outputs can be created, none is a piece file, no length is negative and files with the same path agree |
| Delivery.GuardedAssembly | cmd/cli/client/client.go:186-270 | with creatable, different outputs apart from the client's own files and no negative length, every output holds its range, the outputs in order are the torrent, and every other file is untouched |
| Delivery.FilesExact | cmd/cli/client/client.go:186-270 | under that guard, entry by entry: the file at the directory and path of an entry holds as many bytes as the entry says, and they follow in the torrent the bytes of the entries before it |
| Delivery.AssembleCompletedSingle | cmd/cli/client/client.go:145-185 | assembling a completed single-file torrent succeeds if and only if its output can be created and is no piece file |
| AssemblyWitness.NamedLikeAPiece | cmd/cli/client/client.go:187-251 | a torrent named "." with a file "0.bin" is waited for for ever |
| AssemblyWitness.SamePathTwice | cmd/cli/client/client.go:199-260 | of two files with the same path the first does not hold its range although all copies are made |
| AssemblyWitness.NegativeLength | torrent/metainfo.go:396-406 | a torrent with a file of negative length has a completed download, after which it is never assembled |
| Restart.RestartIsSafe | cmd/cli/client/internal/status/status.go:147-196 | reopening on a bitfield saved at any moment and the files left at any later moment re-establishes storage, lifecycle and byte accounting |
| Restart.CountExisting | cmd/cli/client/internal/status/status.go:158-164 | the restart loop adds up the sizes of the listed pieces |
| Restart.CountExistingIsExisting | cmd/cli/client/internal/status/status.go:158-164 | that sum over the saved bitfield's listing is what the engine starts with |
| Restart.ConfigOfValid | torrent/metainfo.go:92-126 | the geometry gives positive sizes that sum to the total, and every digest is the one `PieceHash` slices |
| Torrent.BytesToDownload | torrent/metainfo.go:92-105 | the loop adds up the file lengths |
| Torrent.NumPiecesExact | torrent/metainfo.go:92-118 | a piece for every whole digest of 20 bytes, and the total is the sum of the file lengths |
| Torrent.SizesSumToTotal | cmd/cli/client/internal/status/download.go:203-206 | the sizes the scheduler computes sum to the torrent's size |
| Torrent.PieceSizeShape | cmd/cli/client/internal/status/download.go:203-206 | every piece has the full length except the last, which is not empty and ends with the torrent |
| Torrent.PieceHashExact | torrent/metainfo.go:120-126 | a digest is read from its own 20 bytes if and only if its end offset fits in 32 bits, and slicing it panics if and only if the end wraps below the start |
| BitField.RefinesSet | p2p/peer/bitfield/bitfield.go:71-117 | any sequence of `Set`, `SetWithCheck` and `Overwrite` succeeds exactly when it does on a plain set of indexes, with the same result |
| BitField.ListingExact | p2p/peer/bitfield/bitfield.go:24-60 | a listing is strictly ascending and holds exactly the indexes below n with that bit |
| BitField.ListingsPartition | p2p/peer/bitfield/bitfield.go:24-60 | missing and existing pieces split 0..n-1, spare bits or not |
| BitField.BitExact | p2p/peer/bitfield/bitfield.go:119-131 | index 8q + r is bit 7 - r of byte q |
| BitField.WithBitMarks | p2p/peer/bitfield/bitfield.go:108-117 | setting bit 7 - i % 8 of byte i / 8 adds i and nothing else |
| BitField.MaskOnce | p2p/peer/bitfield/bitfield.go:130-131 | within a byte, setting one bit changes what is read at that offset only |
| BitField.BitField.constructor | p2p/peer/bitfield/bitfield.go:16-23 | a new bitfield marks nothing and has room for every piece |
| BitField.BitField.Set | p2p/peer/bitfield/bitfield.go:108-117 | adds one index to the set, or reports the index past the last byte that panics |
| BitField.BitField.SetWithCheck | p2p/peer/bitfield/bitfield.go:88-106 | adds it or refuses exactly the indexes that are not the torrent's |
| BitField.BitField.Overwrite | p2p/peer/bitfield/bitfield.go:71-80 | adopts an array of the same length and refuses any other |
| BitField.BitField.Clone | p2p/peer/bitfield/bitfield.go:62-69 | a fresh array with the same bytes |
| BitField.BitField.Check | p2p/peer/bitfield/bitfield.go:119-128 | membership in the set, or the panic of an index past the last byte |
| BitField.BitField.MissingPieces | p2p/peer/bitfield/bitfield.go:24-41 | the listing of the unset bits |
| BitField.BitField.ExistingPieces | p2p/peer/bitfield/bitfield.go:43-60 | the listing of the set bits |
| BencodeRoundTrip.RoundTrip | bencoding/dictionary.go:18-86 | decoding a printed value anywhere inside any input, of any capacity, gives the value back and the position of its last byte |
| BencodeRoundTrip.ItemsRoundTrip | bencoding/lists.go:13-66 | the list loop, from any item on |
| BencodeRoundTrip.EntriesRoundTrip | bencoding/dictionary.go:47-85 | the dictionary loop, from any key on |
| BencodeRoundTrip.IntegerRoundTrip | bencoding/integers.go:14-50 | for every 64-bit integer |
| BencodeRoundTrip.StringRoundTrip | bencoding/byte_string.go:13-36 | for every byte string, delimiters and end markers inside it included |
| BencodeText.ParseIntExact | bencoding/integers.go:41-48 | a text is read as a number if and only if it is an optional sign and digits for a value from -2^63 to 2^63 - 1, and for its positional value |
| BencodeText.IntegerExact | bencoding/integers.go:16-50 | the outcome for every text between `i` and `e`, leading zeros refused |
| BencodeText.StringExact | bencoding/byte_string.go:15-36 | the outcome for every text before a colon |
| BencodeText.NumberPrints | bencoding/integers.go:14-14 | a number prints as its decimal digits, without leading zeros, with a minus sign if negative |
| BencodeText.LiteralsExact | bencoding/lists.go:13-25 | the printed text of integers, strings, lists and the empty dictionary |
| BencodeText.LengthBeforeName | bencoding/dictionary.go:18-33 | the keys `name` and `length` are printed in byte order, not by length |
| BencodeText.Tokens | bencoding/tokens.go:14-18 | the token bytes are the characters of BEP 3 |
| BencodeRoundTrip.PrefixFree | bencoding/dictionary.go:18-33 | no printed value is a prefix of another's print, so printing is injective |
| BencodeRoundTrip.DecodedIsValid | bencoding/integers.go:41-48 | whatever is decoded has 64-bit integers and can be printed and decoded again |
| BencodeRoundTrip.ReprintIsStable | bencoding/dictionary.go:18-86 | for any accepted input, canonical or not, decoding the print gives the same value |
| BencodeRoundTrip.NumeralIsDecimal | bencoding/integers.go:33-42 | a numeral without leading zeros is how its number prints |
| BencodeRoundTrip.DecimalIsNumeral | bencoding/integers.go:14-14 | a printed number has no leading zero and parses back |
| BencodeLocality.ValueAlike | bencoding/tokens.go:21-45 | an accepted value and its end depend only on the bytes up to that end, and not on which of them lie behind the input's length |
| BencodeLocality.TruncationExact | bencoding/byte_string.go:32-35 | a printed value that lost its tail is accepted if and only if it is a string cut behind its colon and the capacity reaches its full length; what is then returned |
| BencodeLocality.CutIsAccepted | bencoding/byte_string.go:32-35 | `5:hel` is accepted out of two spare bytes |
| BencodeLocality.NoValue | bencoding/tokens.go:32-45 | a byte that starts no value is refused |
| BencodeLocality.CutList | bencoding/lists.go:36-41 | a list that ends with an item is an error and no panic |
| BencodeLocality.CutEntries | bencoding/dictionary.go:47-53 | likewise a dictionary that ends with an entry |
| BencodeLocality.CutAfterKey | bencoding/dictionary.go:69-70 | a dictionary that ends with a key makes Go panic |
| BencodeCanonical.PrintsBackIffCanonical | bencoding/dictionary.go:18-86 | the bytes that were consumed are the bytes printed if and only if they follow the canonical grammar |
| BencodeCanonical.CanonicalDecodes | bencoding/dictionary.go:35-86 | canonical bytes anywhere in an input decode to their meaning and stop at their end |
| BencodeCanonical.CanonicalPrints | bencoding/dictionary.go:18-33 | what a canonical tree means prints as the tree's bytes |
| BencodeCanonical.TreeOfIsCanonical | bencoding/dictionary.go:18-33 | every print is canonical |
| BencodeCanonical.VisitsExplain | bencoding/dictionary.go:47-85 | the entries read stand one behind the other between the opening byte and the end marker, and inserting them in order gives the map |
| BencodeCanonical.LastWins | bencoding/dictionary.go:84-84 | of several entries under a key the last one counts |
| BencodeCanonical.InfoHash | torrent/metainfo.go:157-163 | the info dictionary is the last entry under the key "info" of the file's own dictionary; its re-print is the slice of the file where that entry stands if and only if the slice is canonical, and then the hashes agree |
| BencodeWitness.MinusZero | bencoding/integers.go:33-49 | `i-0e` is accepted and prints differently |
| BencodeWitness.PlusSign | bencoding/integers.go:33-49 | `i+1e` is accepted and prints differently |
| BencodeWitness.PaddedLength | bencoding/byte_string.go:24-35 | `01:a` is accepted and prints differently |
| BencodeWitness.UnsortedKeys | bencoding/dictionary.go:47-85 | a dictionary with descending keys is accepted and prints differently |
| BencodeWitness.RepeatedKey | bencoding/dictionary.go:47-85 | a dictionary with a repeated key is accepted and prints differently |
| BencodeWitness.InfoIsRewritten | torrent/metainfo.go:157-163 | a torrent file whose info dictionary is re-printed to other bytes than stand in it |
| Bencode.SortedKeysUnique | bencoding/dictionary.go:23-24 | only one list enumerates a map's keys in ascending order |
| Bencode.SortedKeysShape | bencoding/dictionary.go:23-24 | the sorted keys are ascending and are exactly the map's keys |
| Bencode.LessExact | bencoding/dictionary.go:24-24 | one key comes before another if and only if at the first difference it has the smaller byte, or ends there |
| Bencode.LessTotal | bencoding/dictionary.go:24-24 | the byte order on keys is total and strict |
| Bencode.DecodeValue | bencoding/tokens.go:32-45 | an accepted value ends inside the input, or inside its capacity if it is a string |
| Bencode.ListFrom | bencoding/lists.go:27-66 | the position strictly advances |
| Bencode.DictionaryFrom | bencoding/dictionary.go:47-85 | the position strictly advances |
| BencodeCodec.AdvanceUntil | bencoding/tokens.go:21-30 | finds the first occurrence of the token, or none exactly if there is none |
| BencodeCodec.Integer.Decode | bencoding/integers.go:16-50 | stores the specified integer and leaves the receiver alone on failure |
| BencodeCodec.ByteString.Decode | bencoding/byte_string.go:15-36 | stores the specified string and leaves the receiver alone on failure |
| BencodeCodec.List.Decode | bencoding/lists.go:27-66 | appends the specified items to the receiver's, and exactly those read so far on an error |
| BencodeCodec.Dictionary.Decode | bencoding/dictionary.go:35-86 | inserts the specified entries into the receiver's map, and exactly those read so far on an error |
| BencodeCodec.DecodeNext | bencoding/tokens.go:32-45 | the mutually recursive loops compute the specified value for every input |
| BencodeCodec.PrintItems | bencoding/lists.go:13-25 | the builder loop writes the specified bytes |
| BencodeCodec.PrintEntries | bencoding/dictionary.go:18-33 | the builder loop over collected and sorted keys writes the specified bytes |
| BencodeCodec.CollectSorted | bencoding/dictionary.go:23-24 | whatever order a map yields its keys in, sorting gives one list |

## Left out

- SHA-1 itself, the file system and the clock: an arbitrary function, a map from index to bytes in which an unfinished write leaves any content, and arbitrary readings.
- Sockets, dialing, keep-alives, unchoking, logging, rates, wait groups and channel shutdown: a peer is modelled by what it may send and by whether a send goes through. The scheduler's stop is a step; handlers that exit are handlers that take no further step.
- Cancel messages sent on a time-out and have messages sent after verification: they change no state of the model.
- DownloadTheorems.LeftIsSane: speaks of the announcements in the update loop; the very first one always reports the whole torrent as left, also after a restart.
- Blocks of 4 GiB or more do not arrive at a receiver; `Wire.BlocksFit` shows that framing rules them out.
- Which peer has which piece: `StartPiece` and the sends are enabled for any choice.
- A goroutine waiting for a lock that a receiver holds past a last byte is not enabled until the lock is free; fairness is not modelled.
- A receiver that holds a lock past a last byte is no longer listed among the receivers, so a second message of the same connection may arrive earlier than in the source; every run of the source is among the modelled ones.
- PendingPieces.PendingPiece.Receive: after the size overflow that would panic its state is left open, because `NoFaults` shows that this never happens.
- PendingPieces.PendingPiece.Assemble: the sort is an insertion sort, because `SortsAgree` shows that every sort gives the same list.
- Restart: a bitfield file that cannot be read in full, or is shorter than the bitfield, is an error in the source and no tracker is made; here the file is long enough.
- Upload slots drain: not claimed, since a request whose leecher left keeps its slot.
- Assembler.CopyN: a copy fails only by meeting the end of a piece; other copy errors, after which the source repeats the copy and reports an error at the end, are not modelled. A copy from a file to itself is modelled byte by byte, while the source reads ahead.
- Disk: creating fails only for a missing or wrong parent or an existing directory, not for permissions or a full disk; links are not modelled, and paths are cleaned lexically as `filepath.Join` does.
- System.VerifiedForever: what the assembly leaves in a piece file that is also an output is arbitrary.
- Torrent: hex encoding of the digests, the parser of metainfo fields and `validate`; `Geometry` states what they should supply. Sums of file lengths stay below 2^63.
- BitField.BitField.constructor: the byte count is the exact ceiling; the source computes it in floating point, which is exact for such sizes.
- Bencode.DecodeValue: a position inside the input is a precondition, which every caller meets; an index outside the input or a slice outside its capacity, where the source panics, is the outcome `OutOfBounds`.
- Decoded containers are values in the model; that a list and a dictionary could share a nested pointer is not.
- The top-level `Decode` of bencoding, which trims white space, and the handshake.
- Tracker announcements, command line and configuration.
