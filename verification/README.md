# lyserver and the path planner, modelled in Dafny

This project models the parts of the repository in which state and arithmetic are subtle, and proves what they are for.

- **Path planner** (`Grid`, `Heuristics`, `Routes`, `SearchState`, `AStar`, `BestTargets`). An A* search on a grid with obstacles that stops one
  row above or below its target and never reopens a closed cell. The nodes, their parent pointers and the lists are heap
  objects changed in place; the argument why the search is right is made once, on values, and the search loop is tied to
  it. The heuristic is any function; the theorems about optimality ask that it be consistent, and the two heuristics
  used are shown to be so (Manhattan exactly when diagonal moves are off).
- **Byte buffer** (`Layout`, `ByteBuffer`, `BufferRuns`). A linked list of equal blocks with a cursor node behaves as one
  flat sequence of bytes with a position and a size, over every run of calls; the scatter/gather views handed to the
  socket stand for exactly the flat positions they should.
- **Codecs** (`Words`, `Zigzag`, `Codec`, `Records`, `WireFormat`). Fixed-width words in either byte order, varints, zigzag integers
  and strings; lists of typed values survive the trip through the buffer.
- **Streams and framing** (`Sockets`, `Transfers`, `Streams`, `Framing`). Fixed-size transfers and length-prefixed messages over a
  socket that moves any number of bytes at a time and may fail at any call.
- **Timers** (`TimerSet`, `TimerModel`, `Timers`, `TimerRuns`, `TimerObjects`). An ordered set whose keys are fields of its elements,
  changed in place; every locked section is one step, and the theorems are about all runs, of the model and so of the
  objects.
- **Thread pool** (`PoolModel`, `PoolRounds`, `ThreadPools`). Any number of workers and one manager as an interleaved system in which
  each step is atomic, the manager decides on counts that may be stale, slots are cleared without the lock, and waits
  may end for no reason.
- **Log patterns** (`LogPattern`). The tokenizing loop of the formatter and printing its tokens back.

`dafny verify dfyconfig.toml` checks everything.

## How the model stands to the code

- Collections that the code keeps in standard containers are sequences and maps held in fields; `std::set` is a sequence
  in key order, searched by the code's own comparator. Blocks are arrays, nodes are objects.
- The clock, the addresses the allocator picks, thread identities and the kernel's answers are parameters; an address or
  identity is any one not in use. A socket holds a list of numbers, the kernel's next answers; when it is used up every
  call fails, so each theorem covers every pattern of short transfers, refusals and errors.
- Words are natural numbers with their width written out (`Wrap`, `Signed`); sizes and positions are unbounded.
- A thrown `out_of_range` is an outcome of the call.

## Where the code does something other than one might expect

- `findPath` returns its list even when nothing was found; its first element is then a variable never assigned. The
  model leaves that element arbitrary and adds a result that says whether a stop cell was popped.
- `findbestpath` ranks paths by their number of cells. That keeps a cheapest path exactly when all moves are straight,
  which is proved over all grids; with diagonal moves an empty grid of five by five already shows the difference.
- `findbestpath` does not look whether a search found anything: the list of an unreachable target competes with the
  others and can be kept. It is stated exactly when the list kept was found, for a start beside a target in terms of the grid alone; a grid of one cell
  shows the other case.
- A read of length zero looks at the cursor node before it looks at the length. At the end of the last block the cursor
  is null. `ByteArray.Read` has an outcome for this, and the record round trip holds except exactly there: a last record
  that is an empty string ending at the end of the last block.
- A string longer than its length field can say is written whole with its length cut; its first bytes come back and the next read begins inside it.
- The comment above the tokenizing loop lists `%%` beside the items, as if it were an escape. The code appends one `%` and then
  looks at the second `%` again, which begins an item. The code is followed; printing back is not spoiled by it, and is
  spoiled exactly by an empty option `{}`, whose braces are dropped, or by one that is never closed.
- `readMsg` does not look at the sign of the length it received. The model has an outcome for a negative one, met exactly
  when a header holding one arrives; a header of four bytes 255 is such a one.
- A timer whose callback is empty from the start sits in the set and can be neither cancelled nor refreshed until
  it fires, or ever when it recurs; `EmptyTimersStay` states this over all runs.
- `detectClockRollover` subtracts an hour from the last time in unsigned arithmetic; within the first hour any step back
  counts as a rollover. `RolloverMeaning` states both cases.

## Model

| member | source | states |
|---|---|---|
| AStar.Generator.FindPath | other/Path_Planning/AStar.cpp:146-230 | In the generator's own fields and in coordinates, for every grid, obstacle lists, source and target: a found list is the target and then, backwards, a way from the source to the cell one row above or below the target; every cell of it but the source lies in the grid and in none of the three lists, and each step changes one coordinate by one (four moves) or each by at most one (eight); under a consistent heuristic no other such way is cheaper at 10 a straight and 14 a diagonal step. When nothing is found there is no such way, and the list traces a walk that leaves the source if any does. The closed cells carry their true distances; without a stop cell they are exactly the reachable cells, and the list traces one whose distance and estimate together none exceeds; with one they hold the rest of the path, every cell whose distance and estimate together stay below those of the stop cell, and none that exceeds them. The live nodes afterwards are those from before: every node made was deleted, once. |
| AStar.Generator.FindBestPath | other/Path_Planning/AStar.cpp:231-241 | Keeps the list with the fewest cells, the earliest on ties, whether found or not; each list is what the search promises, in coordinates, and is found exactly when its target can be reached; with straight moves a found list that is kept is a cheapest way to any target, and none to a target listed earlier is as cheap. |
| AStar.Generator.AnswerSpelledOut | other/Path_Planning/AStar.cpp:146-230 | What the search proves about walks over its table of moves and its collision test holds in coordinates and fields. |
| Routes.AdjacentMeans | other/Path_Planning/AStar.cpp:67 | The first four entries of the table of moves lead to exactly the four cells beside a cell, all eight to exactly the eight around it. |
| Routes.TableOfMoves | other/Path_Planning/AStar.cpp:67 | Each entry of the table, in the order in which they are tried. |
| AStar.ShortestIsCheapest | other/Path_Planning/AStar.cpp:231-241 | Why choosing by size is choosing by cost when all moves are straight and the list kept was found. |
| BestTargets.ShortestDiagonalNotCheapest | other/Path_Planning/AStar.cpp:231-241 | With diagonal moves it is not: for every start with two free diagonal moves and two free straight ones, two targets and an answer for each are exhibited that tie on size, while the one kept costs 28 and the other 20. |
| BestTargets.CheapestIffStraight | other/Path_Planning/AStar.cpp:231-241 | Over all grids, starts, targets and answers: a found list that is kept is always a cheapest path if and only if all moves are straight. |
| BestTargets.AnyDiagonalAnswers | other/Path_Planning/AStar.cpp:231-241 | No other answers for those two targets fare better: every search gives lists of the same size at 28 and 20. |
| BestTargets.EmptyGridIsFree | other/Path_Planning/AStar.cpp:231-241 | One such input: an empty grid of five by five, start (1, 1), targets (4, 3) and (2, 3). |
| BestTargets.KeptIsFoundIff | other/Path_Planning/AStar.cpp:218-241 | The list kept was found exactly when some reachable target has fewer cells than every list of an unreachable one, or as few and listed earlier. |
| BestTargets.KeptFromStop | other/Path_Planning/AStar.cpp:174-187 | From a start that is a stop cell of some target, in every run: the list kept was found if and only if a neighbour of the start is free or the start is a stop cell of the first target. |
| BestTargets.UnreachableIsKept | other/Path_Planning/AStar.cpp:218-241 | From a start without a free neighbour an unreachable target listed before one at hand is kept, in every run. |
| BestTargets.SingleCellIsEnclosed | other/Path_Planning/AStar.cpp:218-241 | One such input: a grid of one cell, targets (9, 9) and (1, 0). |
| SearchState.PoppedIsSettled | other/Path_Planning/AStar.cpp:160-190 | The open record of least score is already at its true distance, so a closed cell never has to be reopened. |
| SearchState.StopIsCheapest | other/Path_Planning/AStar.cpp:174-187 | The first stop cell popped costs no more than any walk to either stop cell. |
| SearchState.ClosedAtStop | other/Path_Planning/AStar.cpp:160-190 | When a cell is about to be closed, every cell whose distance and estimate together stay below its own is closed, and no closed cell exceeds them. |
| SearchState.PopKeepsLeads | other/Path_Planning/AStar.cpp:165-190 | Records are closed in the order of what walks out of the closed set can score. |
| SearchState.BestOpenBound | other/Path_Planning/AStar.cpp:160-216 | No walk that ends outside the closed set, its end's estimate counted in, undercuts the score of the best open record. |
| SearchState.OpenOnTheWay | other/Path_Planning/AStar.cpp:189-215 | Any walk out of the closed set passes an open record at no more than the cost so far. |
| SearchState.ExhaustedIsReachable | other/Path_Planning/AStar.cpp:160-216 | Once nothing is open, closed means reachable. |
| SearchState.ChainIsWalk | other/Path_Planning/AStar.cpp:218-224 | Following parents from a closed record gives a walk from the source whose cost is the stored G. |
| SearchState.OpenChainIsWalk | other/Path_Planning/AStar.cpp:200-214 | The same for the record about to be popped. |
| SearchState.PopKeeps | other/Path_Planning/AStar.cpp:189-190 | Closing the best record keeps open and closed lists disjoint, without repeated cells, linked by parents, and every closed cell but the new one expanded. |
| SearchState.AddKeeps | other/Path_Planning/AStar.cpp:200-209 | A new open record keeps all that and covers one more neighbour. |
| SearchState.LowerKeeps | other/Path_Planning/AStar.cpp:210-214 | So does lowering the cost of an open record in place. |
| SearchState.SkipKeeps | other/Path_Planning/AStar.cpp:195-198 | So does skipping a neighbour that collides, is closed, or is open at no greater cost. |
| SearchState.SettledDistances | other/Path_Planning/AStar.cpp:189-215 | The closed list is a table of true distances. |
| SearchState.ClosedWithinUniverse | other/Path_Planning/AStar.cpp:158-216 | Open and closed cells are free grid cells or the source, and no cell is both. |
| SearchState.CostsFit | other/Path_Planning/AStar.cpp:200-214 | Every stored cost is at most 14 * (rows * columns + 1). |
| SearchState.ScoresFit | other/Path_Planning/AStar.cpp:168 | With either heuristic and a target inside the grid the score compared, cost and estimate together, is at most 14 * (rows * columns + 1) + 10 * (rows + columns), so an unsigned score cannot wrap on any grid for which that fits. |
| AStar.Generator.FindNodeOnList | other/Path_Planning/AStar.cpp:244-254 | The first node at the cell, or none when no node is there. |
| AStar.Generator.SelectBest | other/Path_Planning/AStar.cpp:162-173 | Least score, the last in the list on ties. |
| AStar.Generator.Offer | other/Path_Planning/AStar.cpp:200-214 | Creating or lowering the neighbour keeps what the node lists satisfy during an expansion, leaves closed nodes alone, and creates at most nodes that join the open list. |
| AStar.Generator.ExpandNeighbours | other/Path_Planning/AStar.cpp:192-215 | After all moves the closed cell is fully expanded. |
| AStar.Generator.TracePath | other/Path_Planning/AStar.cpp:218-224 | The cells traced are the parent chain, backwards; the loop ends because parents were closed earlier. |
| AStar.Generator.ReleaseNodes | other/Path_Planning/AStar.cpp:257-264 | Every node of the list, each of which must still be live, is taken from the live nodes, and no other. |
| Heuristics.OctagonalConsistent | other/Path_Planning/AStar.cpp:315-319 | The octagonal heuristic is consistent with step costs 10 and 14 for 4 and for 8 directions, and rates both stop cells 10. |
| Heuristics.ManhattanConsistentIffStraight | other/Path_Planning/AStar.cpp:301-305 | The Manhattan heuristic is consistent exactly when diagonal moves are off. |
| Routes.EstimatesAreExact | other/Path_Planning/AStar.cpp:295-319 | Where nothing is in the way the octagonal estimate is the price of a cheapest way with eight moves, and the Manhattan estimate with four. |
| Heuristics.EstimateAlongWalk | other/Path_Planning/AStar.cpp:295-319 | A consistent estimate never falls along a walk by more than the walk costs. |
| Grid.StraightCost | other/Path_Planning/AStar.cpp:200 | With four moves a walk costs 10 for each step. |
| ByteBuffer.ByteArray.Write | lyserver/src/bytearray.cpp:427-468 | Overwrites the flat bytes from the position on, growing by as few whole blocks as needed, moves position and size, and leaves every other byte alone. |
| ByteBuffer.ByteArray.Read | lyserver/src/bytearray.cpp:470-504 | Hands out exactly the next bytes and moves past them; fails exactly when more is asked for than is unread; meets a null cursor exactly when nothing is asked for at the very end of the blocks. |
| ByteBuffer.ByteArray.SetPosition | lyserver/src/bytearray.cpp:543-564 | Succeeds exactly within the blocks; extends the size when moved past it; the cursor node is again the block of the position. |
| ByteBuffer.ByteArray.Clear | lyserver/src/bytearray.cpp:412-425 | Back to one block, position and size 0, the first block untouched; every other block is deleted, which a block can be once. |
| ByteBuffer.ByteArray.DeleteChain | lyserver/src/bytearray.cpp:416-422 | Deletes every block of a chain; as a deleted block loses its link and cannot be deleted again, each link is read in time and each block goes once. |
| ByteBuffer.ByteArray.Destroy | lyserver/src/bytearray.cpp:38-47 | Deletes every block. |
| ByteBuffer.ByteArray.AddCapacity | lyserver/src/bytearray.cpp:615-651 | As few blocks as make the room, old contents and cursor kept; the cursor moves to the first new block when it was past the last. |
| ByteBuffer.ByteArray.AppendBlocks | lyserver/src/bytearray.cpp:635-645 | New distinct blocks behind the last one. |
| ByteBuffer.ByteArray.ToString | lyserver/src/bytearray.cpp:653-663 | The bytes from position to size, the cursor unmoved. |
| ByteBuffer.ByteArray.GetReadBuffers | lyserver/src/bytearray.cpp:683-718 | The views stand for the unread flat positions, at most the length asked for, in order. |
| ByteBuffer.ByteArray.GetReadBuffersFrom | lyserver/src/bytearray.cpp:720-761 | The same from another position; nothing when nothing is unread, whatever the position. |
| ByteBuffer.ByteArray.GetWriteBuffers | lyserver/src/bytearray.cpp:763-797 | The views stand for the next flat positions, room having been made, old contents kept. |
| ByteBuffer.ByteArray.MapsDistinct | lyserver/src/bytearray.cpp:776-795 | No two bytes of the views share a memory cell. |
| ByteBuffer.ByteArray.MapsContent | lyserver/src/bytearray.cpp:698-716 | Reading through the views reads the flat sequence. |
| ByteBuffer.ByteArray.ScatterIsSplice | lyserver/src/bytearray.cpp:763-797 | Filling the views overwrites exactly the flat positions they stand for. |
| ByteBuffer.WriteCompose | lyserver/src/bytearray.cpp:427-468 | Writing one piece and then another is writing both at once, capacity included. |
| Layout.CeilUnique | lyserver/src/bytearray.cpp:628 | The number of blocks added is the only one that makes room without a block to spare. |
| Layout.GrowTwice | lyserver/src/bytearray.cpp:615-651 | Growing for one piece and then another ends at the capacity of growing for both. |
| BufferRuns.Run | lyserver/src/bytearray.cpp:412-564 | Over any run of writes, reads, position changes and clears the chain of blocks gives the replies and contents of one flat sequence. |
| BufferRuns.RunKeepsShape | lyserver/src/bytearray.cpp:412-564 | In every state of a run position <= size <= capacity, and the capacity is a whole number of blocks. |
| BufferRuns.SizeIsFarthest | lyserver/src/bytearray.cpp:427-564 | Over any run, until the next clear, the size is the farthest position ever reached, and there is no block that none of the positions needed. |
| BufferRuns.UntouchedByte | lyserver/src/bytearray.cpp:427-468 | A byte no write passes over keeps its value over the whole run, whatever is written before, behind or around it and as long as its block is not dropped. |
| BufferRuns.LastWriteDecides | lyserver/src/bytearray.cpp:427-468 | A byte ends as the last write that passed over it left it. |
| BufferRuns.ReadBackWrite | lyserver/src/bytearray.cpp:427-504 | Write, go back, read: the bytes written come back. |
| Zigzag.EncodeValue | lyserver/src/bytearray.cpp:129-159 | Zigzag in modular arithmetic is 2v or -2v - 1, the most negative value included. |
| Zigzag.DecodeEncode | lyserver/src/bytearray.cpp:166-174 | Decoding undoes encoding for every signed word. |
| Zigzag.EncodeDecode | lyserver/src/bytearray.cpp:166-174 | Encoding undoes decoding for every unsigned word. |
| Codec.FixedIsPortable | lyserver/src/bytearray.cpp:66-127 | The bytes of a fixed-width word depend on the buffer's byte order, not on the host's. |
| Codec.FixedRoundTrip | lyserver/src/bytearray.cpp:262-308 | A fixed-width word read back, possibly on another host, is the one written. |
| WireFormat.FixedByteAt | lyserver/src/bytearray.cpp:66-127 | The bytes in the buffer are the word's digits to base 256, low or high end first as the buffer's order says. |
| WireFormat.FixedBytesOf | lyserver/src/bytearray.cpp:66-127 | Every value of every fixed width fits and is written as the digits of itself or of its two's complement. |
| Codec.VarintLength | lyserver/src/bytearray.cpp:181-210 | A varint has one byte for each started group of seven bits, one for zero. |
| WireFormat.VarintByteAt | lyserver/src/bytearray.cpp:181-210 | Byte i holds bits 7i to 7i + 6 and is marked exactly when another follows. |
| WireFormat.VarintBytesOf | lyserver/src/bytearray.cpp:171-210 | Every unsigned value is written as its varint and every signed one as the varint of 2v or -2v - 1. |
| Codec.VarintFits | lyserver/src/bytearray.cpp:183-201 | 5 bytes hold every 32-bit word, 10 every 64-bit word. |
| Codec.VarintRoundTrip | lyserver/src/bytearray.cpp:317-358 | Whatever follows, reading gives the value back and takes exactly its bytes. |
| Codec.VarintPrefixFree | lyserver/src/bytearray.cpp:181-210 | No varint is the beginning of another. |
| Codec.VarintInRange | lyserver/src/bytearray.cpp:317-358 | Any bytes whatever read as a value of the word's width. |
| WireFormat.VarintMeans | lyserver/src/bytearray.cpp:317-358 | What a reader makes of any bytes: it runs short exactly when all are marked and do not fill the word; otherwise it takes the low seven bits of each byte up to the first unmarked one or the full word, cut to its width. |
| Records.RecordRoundTrip | lyserver/src/bytearray.cpp:255-410 | Every typed value decodes from its encoding, whatever follows it. |
| WireFormat.TextBytes | lyserver/src/bytearray.cpp:226-248 | A string is its length in 2, 4 or 8 bytes in the buffer's order, or as a varint, and then its bytes. |
| WireFormat.BeginningThrows | lyserver/src/bytearray.cpp:255-410 | A value of any type cut off anywhere is never taken for one: reading what is left of it throws. |
| Records.LongTextIsCut | lyserver/src/bytearray.cpp:226-248 | A string too long for its length field never comes back: whatever follows and whatever the hosts, exactly its first bytes are read, as many as the cut length says, and the next read begins inside it. |
| Records.CollectVarint | lyserver/src/bytearray.cpp:181-191 | The loop fills its 5- or 10-byte array with the varint, never past its end. |
| Records.WriteText | lyserver/src/bytearray.cpp:226-248 | A string write is one write of length and bytes. |
| Records.ReadVarint | lyserver/src/bytearray.cpp:317-358 | The loop reads what the bytes decode to, or throws exactly when they run out, contents untouched. |
| Records.ReadText | lyserver/src/bytearray.cpp:376-410 | A string read gives the string, throws exactly when bytes are missing, or meets the null cursor in the one case named. |
| Records.ReadRecord | lyserver/src/bytearray.cpp:255-410 | The same for every type. |
| Records.NextRecord | lyserver/src/bytearray.cpp:255-410 | While a list is read back each read decodes the next record. |
| Records.RoundTrip | lyserver/src/bytearray.cpp:66-410 | A list of values written, then read by the same types from where it starts, comes back whole and ends at the same position, for every block size and both byte orders, except exactly when the last value is an empty string that ends at the very end of the last block. |
| Streams.SocketStream.Read | lyserver/streams/socket_stream.cpp:28-39 | On a connected stream one receive moves as many bytes as the kernel's answer, the length and what has arrived allow, to the position, which moves past them; on a closed one nothing changes. |
| Streams.SocketStream.Write | lyserver/streams/socket_stream.cpp:48-59 | On a connected stream one send moves as many bytes as the kernel's answer, the length and what is unread allow, from the position, which moves past them. |
| Streams.SocketStream.ReadFixSize | lyserver/streams/stream.cpp:19-29 | Told by the kernel's answers: as many bytes arrive as are wanted, are there, and the answers before the first that moves nothing add up to; they are the next bytes, now at the old position, in order. The result is the length exactly when all arrived, -1 exactly when the stream is closed or an error ended the loop, and 0 exactly when a receive that moved nothing did. |
| Streams.SocketStream.WriteFixSize | lyserver/streams/stream.cpp:46-56 | The same for sending, with the same three results: the bytes sent are those the position passed, once and in order. |
| Streams.SocketStream.ReadFixSizeRaw | lyserver/streams/stream.cpp:5-17 | The same into a plain buffer, with the same three results; the rest of the buffer is untouched. |
| Streams.SocketStream.WriteFixSizeRaw | lyserver/streams/stream.cpp:31-44 | The same out of a plain buffer, with the same three results. |
| Transfers.FailsIff | lyserver/streams/stream.cpp:5-56 | A loop fails if and only if, after some answers that moved something and less than all, the next is an error or missing. |
| Transfers.EndsIff | lyserver/streams/stream.cpp:5-56 | It ends short without failing if and only if the next answer is no error but the kernel gives nothing or nothing is left. |
| Transfers.CompletesIff | lyserver/streams/stream.cpp:5-56 | It moves everything if and only if there is enough and the answers, all positive, add up to it. |
| Transfers.MovesReady | lyserver/streams/stream.cpp:5-56 | It moves the least of what is wanted, what is there, and what the answers before the first that moves nothing add up to. |
| Streams.ToIntMeans | lyserver/streams/stream.cpp:28 | A length below 2^31 is returned as it is; from there to 2^32 it comes back negative. |
| Sockets.WillingMovesAll | lyserver/streams/stream.cpp:5-56 | A kernel that keeps moving bytes, in whatever pieces, makes each of these loops move all there is. |
| Streams.ReceiveMore | lyserver/streams/stream.cpp:19-29 | A reception into the room the last one left over continues it. |
| Framing.WriteN | lyserver/src/r_s_Msg.cpp:14-34 | Sends exactly as many bytes as the answers before the first error allow, going on after an answer of 0; returns the size when that is all and -1 otherwise; and uses exactly the answers that takes. |
| Framing.PushesAllIff | lyserver/src/r_s_Msg.cpp:14-34 | Everything goes out if and only if the answers before the first error add up to it, zeros allowed. |
| Framing.PushesOffered | lyserver/src/r_s_Msg.cpp:14-34 | The bytes that get out are the least of the size and what the answers before the first error add up to. |
| Framing.SendMsg | lyserver/src/r_s_Msg.cpp:39-54 | Sends length and message, refuses an empty one; for every list of answers the bytes that went out are exactly those of the frame the answers allow, and it succeeds exactly when that is all. |
| Framing.LargestMessage | lyserver/src/r_s_Msg.cpp:44-51 | With its header the largest message makes just the largest `int`. |
| Framing.ReadN | lyserver/src/r_s_Msg.cpp:56-77 | Takes the least of the size, what arrives, and what the answers before the first that moves nothing add up to; returns -1 exactly when an error ends it and the number of bytes otherwise. |
| Framing.ReadMsg | lyserver/src/r_s_Msg.cpp:78-114 | Told by the answers and the bytes that arrive: an error is one exactly when it ends the header; a message comes back exactly when header and body come in, and is the bytes behind the header; a negative length is met exactly when a header holding one comes in; anything that cuts the body short, error or not, and an orderly end in the header give nothing. |
| Framing.ReceiveMeaning | lyserver/src/r_s_Msg.cpp:78-114 | What a receive means: a message handed over is a whole frame and exactly that was taken; it fails or comes back with nothing only in the middle of a frame; a negative length is met only when a header holding one arrives; under a willing kernel the outcome is determined by what arrives. |
| Framing.ReceiveSpelledOut | lyserver/src/r_s_Msg.cpp:78-114 | The same for one receive as a function, from which repeated receives are built. |
| Framing.HeaderGivesLength | lyserver/src/r_s_Msg.cpp:47-48 | The receiver computes the sender's length from the header, whatever byte order either host uses. |
| Framing.HeaderBytes | lyserver/src/r_s_Msg.cpp:47-48 | The four bytes of the header are the length, high byte first. |
| Framing.LengthInBytes | lyserver/src/r_s_Msg.cpp:98 | What any four bytes announce: high byte first, and negative from 128 on. |
| Framing.NegativeHeader | lyserver/src/r_s_Msg.cpp:98-103 | One header that does it: four bytes 255 announce a length of -1. |
| Framing.SendAll | lyserver/src/r_s_Msg.cpp:39-54 | For every list of answers what goes out is exactly as much of the frames, in order, as the answers allow; it succeeds exactly when that is all, which a willing kernel ensures. |
| Framing.ReceiveAll | lyserver/src/r_s_Msg.cpp:78-114 | Repeated receives hand over, and leave, exactly what the receives as functions say, for every list of answers and everything that may arrive. |
| Framing.FramesComeBack | lyserver/src/r_s_Msg.cpp:78-114 | When frames arrive, what is handed over is a beginning of the messages sent, in order; all of it leaves nothing over; and it is all of it when the kernel keeps handing bytes over. |
| Framing.Converse | lyserver/src/r_s_Msg.cpp:14-114 | Sending a list of messages and receiving it: whether it succeeds and what comes back is fixed by the two lists of answers; it is always a beginning of the list, and the whole list when both kernels are willing. |
| TimerSet.FindIsExact | lyserver/src/timer.cpp:7-30 | With ordered keys the search finds a timer exactly when it is stored. |
| TimerSet.InsertKeeps | lyserver/src/timer.cpp:208 | Insertion keeps the keys ordered, adds just the timer, and says when it comes first. |
| TimerSet.TakeOut | lyserver/src/timer.cpp:86-102 | A stored timer taken out may have its key changed while it is out; the rest stays ordered. |
| TimerSet.ExpiredIsExact | lyserver/src/timer.cpp:181-186 | The cut falls right behind the last timer due by now. |
| TimerSet.ProbeDoesNotMatter | lyserver/src/timer.cpp:181-182 | Wherever the probe timer is allocated the same timers expire. |
| TimerSet.FireAllSpec | lyserver/src/timer.cpp:191-203 | A batch changes exactly the fired timers, puts the recurring ones back in order, and hands callbacks out in the order of the batch. |
| TimerModel.RolloverMeaning | lyserver/src/timer.cpp:222-232 | A rollover is a clock more than 3600000 ms back, or any step back when the last time was below that, where the 64-bit subtraction wraps. |
| TimerModel.InvFinds | lyserver/src/timer.cpp:50-51 | The search in cancel, refresh and reset never misses a timer that still holds its callback, so the unchecked erase is safe. |
| TimerModel.AddKeeps | lyserver/src/timer.cpp:206-220 | Adding keeps keys ordered and membership exact. |
| TimerModel.ToldIffFirst | lyserver/src/timer.cpp:208-219 | The sleeper is told exactly when the timer has an earlier deadline than every stored one, or the same and a lower address, and no notification is pending. |
| TimerModel.AddTellsIffFirst | lyserver/src/timer.cpp:116-122 | So for a timer added. |
| TimerModel.WaitEndsAtEarliest | lyserver/src/timer.cpp:138-157 | The wait is for ever exactly when nothing is pending, zero exactly when something is due, and otherwise ends at the earliest deadline. |
| TimerModel.CancelKeeps | lyserver/src/timer.cpp:44-55 | Cancelling keeps the invariant, takes out just this timer, and succeeds exactly when it held a callback. |
| TimerModel.EmptyCallbackStays | lyserver/src/timer.cpp:44-73 | A timer added without a callback is stored, and cancelling or refreshing it changes nothing and reports failure. |
| TimerModel.RefreshKeeps | lyserver/src/timer.cpp:57-73 | Refreshing keeps the invariant and changes this timer's deadline only. |
| TimerModel.ResetKeeps | lyserver/src/timer.cpp:75-105 | Resetting keeps the invariant, never subtracts below zero, and notifies when the timer comes first untold. |
| TimerModel.ResetTellsIffFirst | lyserver/src/timer.cpp:75-105 | A reset tells the sleeper exactly when it acts and the timer then comes first with no notification pending. |
| TimerModel.ExpireSpec | lyserver/src/timer.cpp:159-204 | Expiry takes out exactly the timers due by now, or all on a rollover, in deadline order; what stays is the untouched timers and the recurring ones, due at now plus period; the others among the fired lose their callback; the last time is set unless nothing is stored. |
| Timers.Timer.Cancel | lyserver/src/timer.cpp:44-55 | The method on the objects does what the function on values says. |
| Timers.Timer.Refresh | lyserver/src/timer.cpp:57-73 | Likewise. |
| Timers.Timer.Reset | lyserver/src/timer.cpp:75-105 | Likewise, notification included. |
| Timers.TimerManager.AddTimer | lyserver/src/timer.cpp:116-122 | Likewise, for a timer at any unused address. |
| Timers.TimerManager.Enqueue | lyserver/src/timer.cpp:206-220 | Likewise; the notification is sent exactly when the timer comes first and none is pending. |
| Timers.TimerManager.GetNextTimer | lyserver/src/timer.cpp:138-157 | Likewise. |
| Timers.TimerManager.ListExpired | lyserver/src/timer.cpp:159-204 | Likewise, loops and in-place key changes included. |
| TimerRuns.StepKeeps | lyserver/src/timer.cpp:44-232 | Every critical section keeps what the run theorems need. |
| TimerRuns.RefreshStepKeeps | lyserver/src/timer.cpp:57-73 | Refresh, which never notifies, cannot move a deadline earlier. |
| TimerRuns.NoMissedWakeup | lyserver/src/timer.cpp:99-220 | Over every run under a non-decreasing clock: without a detected rollover, either a notification is pending or no stored timer is due before the front last seen; at most one notification between two looks. |
| TimerRuns.FiringIsSafe | lyserver/src/timer.cpp:44-204 | Over every run a one-shot timer fires at most once and no timer is handed out after its cancellation succeeded. |
| TimerRuns.FiringsAreSpaced | lyserver/src/timer.cpp:159-204 | Over every run without rollover two firings of a recurring timer never reset are at least its period apart in sampled time. |
| TimerRuns.FirstFiringIsNotEarly | lyserver/src/timer.cpp:32-37 | Over every run without rollover no timer never reset fires before a period is over since it was made. |
| TimerRuns.MembershipHolds | lyserver/src/timer.cpp:44-204 | In every reachable state a timer made with a callback is stored exactly while it holds it, keys are strictly ordered, no deadline is below its period, and every search succeeds. |
| TimerRuns.EmptyTimersStay | lyserver/src/timer.cpp:44-204 | Over every run a timer made without a callback is stored exactly until it fires, or for ever when it recurs, and can be neither cancelled nor refreshed. |
| TimerRuns.NoFalseRollover | lyserver/src/timer.cpp:222-232 | With a non-decreasing clock and samples at most an hour old no rollover is ever detected. |
| TimerObjects.Perform | lyserver/src/timer.cpp:44-232 | Any critical section on the timer objects is the model's step, and hands out what the model hands out. |
| TimerObjects.MakeAndRun | lyserver/src/timer.cpp:44-232 | So is any run on a manager and its timers, to which all the run theorems therefore apply. |
| PoolModel.StepKeeps | lyserver/src/ThreadPool/ThreadPool.cpp:103-269 | Every atomic step of any worker or the manager keeps the pool's invariant. |
| PoolModel.RunIsGood | lyserver/src/ThreadPool/ThreadPool.cpp:103-269 | So does every interleaving of them. |
| PoolModel.StartIsGood | lyserver/src/ThreadPool/ThreadPool.cpp:37-82 | The constructor's state satisfies it. |
| PoolModel.CountersHold | lyserver/src/ThreadPool/ThreadPool.cpp:108-219 | In every reachable state min <= alive <= max, 0 <= busy <= alive, 0 <= exit orders <= 2; alive and busy count exactly the threads they should; occupied slots are the alive threads plus those still clearing theirs. |
| PoolModel.SlotsHold | lyserver/src/ThreadPool/ThreadPool.cpp:256-268 | Slots and threads correspond one to one, and a leaving thread's scan meets its slot before the array ends. |
| PoolModel.TasksConserved | lyserver/src/ThreadPool/ThreadPool.cpp:112-157 | Over every run the tasks added are those taken, in order, followed by those queued; each taken task is finished or in the hands of exactly one worker; no worker past the wait loop ever gets the empty task. |
| PoolModel.TurnoverHolds | lyserver/src/ThreadPool/ThreadPool.cpp:120-219 | Alive is min plus created minus left; every departure was ordered by a shrinking round, at most two a round; at most two threads are created a growing round. |
| PoolModel.OneInside | lyserver/src/ThreadPool/ThreadPool.cpp:112-157 | At most one party is inside the lock. |
| PoolModel.SlotAhead | lyserver/src/ThreadPool/ThreadPool.cpp:259-267 | The scan for a thread's own slot never runs out. |
| PoolModel.StepKeepsTickets | lyserver/src/ThreadPool/ThreadPool.cpp:139-158 | No task is in two hands or lost at any step. |
| PoolRounds.NobodyIsStuck | lyserver/src/ThreadPool/ThreadPool.cpp:103-219 | In every reachable state whoever holds the lock can go on, and when nobody does everybody can. |
| PoolRounds.OrdersObeyed | lyserver/src/ThreadPool/ThreadPool.cpp:120-130 | Over every run until the next order, in a pool that far above its minimum, each exit test with an order left makes one worker leave and uses one order up. |
| PoolRounds.ShrinkRetiresTwo | lyserver/src/ThreadPool/ThreadPool.cpp:208-219 | After a shrinking round at two above the minimum or more, two exit tests retire two workers, whatever happens in between. |
| PoolRounds.GrowRoundCreates | lyserver/src/ThreadPool/ThreadPool.cpp:186-206 | Over every run a growing round that has begun and ended made two workers, or as many as the maximum leaves room for when those on their way out still count. |
| ThreadPools.TaskQueue.TakeTask | lyserver/src/ThreadPool/ThreadPool.cpp:25-35 | The oldest task, or the empty one exactly when there is none. |
| ThreadPools.ThreadPool.constructor | lyserver/src/ThreadPool/ThreadPool.cpp:37-82 | The object starts in the model's start state. |
| ThreadPools.ThreadPool.AddTask | lyserver/src/ThreadPool/ThreadPool.cpp:224-234 | The task goes to the end of the queue, without the lock; the invariant survives it. |
| ThreadPools.ThreadPool.Check | lyserver/src/ThreadPool/ThreadPool.cpp:114-117 | A worker waits, giving up the lock, exactly when it sees the queue empty, and otherwise goes on to take a task. |
| ThreadPools.ThreadPool.TestExit | lyserver/src/ThreadPool/ThreadPool.cpp:120-130 | In the pool's fields: one exit order is used up if there is one; the worker leaves, counted out and without the lock, exactly when there was one and the pool is above its minimum, and otherwise keeps the lock and looks at the queue again. |
| ThreadPools.ThreadPool.Take | lyserver/src/ThreadPool/ThreadPool.cpp:139-143 | A worker past the wait loop takes the oldest task, never the empty one. |
| ThreadPools.ThreadPool.BeginWork | lyserver/src/ThreadPool/ThreadPool.cpp:143-146 | One more busy worker, and the lock is free. |
| ThreadPools.ThreadPool.Settle | lyserver/src/ThreadPool/ThreadPool.cpp:153-157 | One fewer, and the lock is free. |
| ThreadPools.ThreadPool.Clear | lyserver/src/ThreadPool/ThreadPool.cpp:256-268 | One turn of the scan stays within the array; it frees the slot and ends the thread exactly when the slot is its own. |
| ThreadPools.ThreadPool.Count | lyserver/src/ThreadPool/ThreadPool.cpp:176-181 | The manager's counts are those of the moment it held the lock. |
| ThreadPools.ThreadPool.DecideGrow | lyserver/src/ThreadPool/ThreadPool.cpp:186 | The manager grows exactly when its counts show more tasks queued than idle workers and fewer workers than the maximum, however stale those counts are by then. |
| ThreadPools.ThreadPool.DecideShrink | lyserver/src/ThreadPool/ThreadPool.cpp:208 | It orders workers out exactly when its counts show more than three idle workers and more than the minimum. |
| ThreadPools.ThreadPool.GrowTurn | lyserver/src/ThreadPool/ThreadPool.cpp:193-201 | In the pool's fields: the loop goes on exactly while slots are left, fewer than two workers were made and the pool is below its maximum; then a worker is made exactly when the slot is free, and takes it. |
| ThreadPools.ThreadPool.OrderExits | lyserver/src/ThreadPool/ThreadPool.cpp:208-219 | Two exit orders, whatever was left of the last. |
| ThreadPools.ThreadPool.Perform | lyserver/src/ThreadPool/ThreadPool.cpp:103-234 | Any step of any thread on the object is the model's step. |
| ThreadPools.ThreadPool.Run | lyserver/src/ThreadPool/ThreadPool.cpp:103-234 | Any interleaving takes the object where it takes the model. |
| ThreadPools.MakeAndRun | lyserver/src/ThreadPool/ThreadPool.cpp:37-234 | A pool made and run by any interleaving: its own counters are within bounds and count the right threads, its tasks are all accounted for in order, and no worker holds the empty task. |
| LogPattern.ScanItem | lyserver/src/log.cpp:545-589 | Spelled in characters: a name of letters in either case and closing braces, then an option up to the first closing brace, or none where the name meets a character that is neither a letter nor a brace; the scan stays open exactly when an opened option is never closed. |
| LogPattern.Init | lyserver/src/log.cpp:523-612 | The loop yields the tokens of the pattern and the error flag; a pattern made of literals without percent signs and items with names of letters, with or without options, comes out as exactly those tokens, and as their beginning whatever stands behind them. |
| LogPattern.PrintedComesBack | lyserver/src/log.cpp:523-612 | Tokens printed and cut again come back one by one, from any position and with anything behind them. |
| LogPattern.UnclosedComesOut | lyserver/src/log.cpp:585-603 | An option that is never closed gives the error token first and everything but the percent sign as one literal behind it. |
| LogPattern.NameEndMeans | lyserver/src/log.cpp:545-572 | A name runs over letters and closing braces only, and never stops in front of one. |
| LogPattern.RoundTripIff | lyserver/src/log.cpp:526-612 | For every pattern the tokens print back to it if and only if every option opened is closed and none is empty. |
| LogPattern.EmptyBracesAreLost | lyserver/src/log.cpp:526-612 | One pattern that does not come back: `%d{}` prints as `%d`. |
| LogPattern.ReprintCounts | lyserver/src/log.cpp:526-612 | Where the characters of any pattern go: each empty option loses its two braces, each unclosed one gains the sixteen characters by which the error text exceeds a percent sign. |
| LogPattern.RoundTrip | lyserver/src/log.cpp:526-612 | A pattern whose every brace is closed later on, and never at once, comes back whole. |
| LogPattern.ReprintFrom | lyserver/src/log.cpp:526-612 | Nothing is lost but the two braces of each empty option. |
| LogPattern.DoubledPercentStartsItem | lyserver/src/log.cpp:536-543 | Wherever two percent signs stand, not followed by a third or by an unclosed option, the first adds one to the literal and the second begins an item. |

## Left out

- AStar.Generator.FindBestPath: requires at least one target; with none the code dereferences the end of an empty map.
- AStar.Generator.FindPath: coordinates and costs are unbounded; `CostsFit` and `ScoresFit` bound every cost and score by the size of the grid.
- AStar.Heap.Delete: the memory of a deleted node, and of a deleted block of the buffer, is never handed out again.
- The euclidean heuristic (rounded floating point), the built-in map, obstacle list maintenance and path printing.
- ByteBuffer.ByteArray.GetReadBuffersFrom: asks its caller to stay within the blocks when there is anything to read, because the length is capped by what is unread after the buffer's own position and not after the position given.
- ByteBuffer.ByteArray.Write: a block size of zero, and sizes beyond 64 bits, are not modelled; rounding the block count up in floating point is exact integer division here.
- The read at a given position (bytearray.cpp:506-541) starts from the cursor node and is only kept as `toString` uses it.
- Writing the buffer to a file and reading it from one, and the hexadecimal dump.
- Streams.SocketStream.Read: with length zero the code takes the address of the first element of an empty vector; the model hands over no views.
- Streams.SocketStream.Write: with nothing left to send the code takes the address of the first element of an empty vector; the model hands over no views.
- Streams.SocketStream.WriteFixSize: the same for a length beyond what is left to send, when the loop asks for more.
- Records.RoundTrip: floats and doubles are their bit patterns, written and read as fixed 32- and 64-bit words.
- Framing.SendMsg: the file descriptor and null-pointer tests are not modelled, and a message has at most 2^31 - 5 bytes, as the sum with the header length must be an `int`.
- Framing.ReadMsg: for a negative length the code allocates and indexes with it; the model stops there.
- Timers.TimerManager.AddTimer: deadlines do not wrap at 64 bits; condition timers are timers with another callback.
- Timers.TimerManager.ListExpired: the early look at the set under the read lock is merged with the same look under the write lock.
- Timers.Timer.Reset: the first comparison, made before the lock is taken, is part of the same step.
- TimerRuns.RunIsGood: a timer keeps its address for the whole run; that the address of a timer long gone may be given to a new one is not modelled. Addresses only break ties among stored timers.
- TimerRuns.FiringsAreSpaced: speaks of timers that were never reset, since a reset may shorten the period.
- PoolModel.StartIsGood: starts from the state after the constructor; a manager that grows the pool while the constructor is still creating threads is not modelled.
- PoolModel.TasksConserved: that every task is eventually run is not claimed; a task is queued and signalled without the pool's lock, so a worker about to wait can miss the signal.
- The destructor of the pool and everything after shutdown begins; failing thread creation.
- PoolModel.CountersHold: a signal is not a step of its own, since a wait may end at any time anyway.
- Format items, appenders and levels of the logger; characters are classified as in the C locale.
- HTTP parsing, servlets, connection pool, reactor, configuration, FTP, database and Python parts of the repository.
