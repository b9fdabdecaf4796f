# Verification model of the chat server

A Dafny model of the chat server's core with proofs of what it promises. `dafny verify
dfyconfig.toml` checks all of it.

| file | models |
|---|---|
| `Collections.dfy` | result codes, `realloc`, and what inserting and removing mean |
| `Vectors.dfy` | the dynamic array behind every table, and its whole runs |
| `Ring.dfy`, `RingRuns.dfy` | the growable ring buffer, and its whole runs |
| `Framing.dfy` | the stream: writing, and cutting what is read into lines |
| `Payloads.dfy`, `PayloadLaws.dfy` | the in-place parser of client lines, and its laws |
| `Messages.dfy` | the serialisers, and a reader for what they send |
| `Replies.dfy` | the fixed texts the server sends |
| `Outboxes.dfy` | what is queued for a client, and what the client reads off its text |
| `Transmission.dfy` | the transmit queue over the ring buffer, and its drain |
| `Rooms.dfy` | accounts and channels as tables, and the documented commands on them |
| `Pools.dfy`, `Commands.dfy`, `Subscriptions.dfy` | users, channels and their two redundant lists, against those tables |
| `Routing.dfy` | who receives a message |
| `Relay.dfy`, `RelayLaws.dfy` | the server as a state machine over the lines it reads, and what every run keeps |
| `TypedLines.dfy` | what each line a client can type means, spelled out |
| `RelayLogin.dfy`, `RelayCommands.dfy`, `RelayMessages.dfy` | what each step of that machine changes, spelled out |
| `RelayTexts.dfy` | what looks like a message to a client, over whole runs |
| `RelayRuns.dfy` | runs from the empty server: all of this, and what is freed |
| `Dialogues.dfy` | signing up, coming back, joining and leaving, in typed lines |
| `Sessions.dfy` | logging in and every line of every connection, against that machine |
| `Sweeping.dfy` | the garbage collector's sweep |
| `EndToEnd.dfy` | from a typed line to the line another client is shown |

Pushes, pops, commands, lines of input and rounds of the transmit loop are atomic steps. `read`
is a list of chunks of 1 to 128 bytes, then end of input; every theorem about reading holds for
every such list. `send` takes as many bytes as the stream still has room for. A block obtained
from `malloc` or `realloc` holds arbitrary values; where such bytes are sent, behind the NUL of a
name, the run says which (`junk`); and where a NUL goes behind the end of a block, in
`/list_users`, the run says whether the allocator left a byte to spare there (`spare`). A line is
tidy if it is not a valid name with a NUL behind it, or if the bytes sent behind that NUL do not
look like a message. A byte is a character, and `isalnum` is that of the C locale. Integers are
unbounded, on the assumption that no capacity times the size of a pointer overflows.

## Where the code and its documentation disagree

The model follows the code.

- `ringbuffer_shrink` (`chatd/collections/ringbuffer.c:57-148`) does what its header comment says
  exactly on `ShrinksAsDocumented`. Shrinking to 0 drops what a destination should receive. When
  `tail + size` equals the new capacity, `head` is left one past the block. When fewer elements
  than the new capacity reach beyond it, the copy loops run to the new capacity and read past the
  old block unless that many cells follow `tail`. `RingRuns` holds each of the three families.
- `Payload::parse` (`chatd/protocol/payload.cpp:25-76`) loses a last argument of one character
  that no space follows, and dereferences a null pointer on a lone slash: `Misread` is the exact
  set of lines.
- `Delete` (`chatd/protocol/command.cpp:125-137`) compares the deleted channel's name with itself
  and bounds its scan by the issuing user's list, so it takes entry 0 off every member's list:
  `DeleteHitsItsChannel` is the exact condition under which that is the deletion documented in
  `PROTOCOL.md`. `DeleteCorrected` is the marked correction, which `Subscriptions.Run` uses;
  `Sessions` runs the code as written.
- `ListUsers` (`chatd/protocol/command.cpp:177-180`) copies each name, with its NUL, into a block
  of the length of the name alone.
- A refused creation (`chatd/net/connection/handle_payload.cpp:152-165`) destroys the user it made,
  and `User::~User` (`chatd/protocol/protocol.cpp:6-9`) frees the entered name and password, which
  the connection goes on using. `RelayRuns.FreedExactly` says when they are freed.
- `readuntil` (`chatd/net/tcp/stream.c:81-83`) gives NULL for an empty line found while reading
  and `""` for a buffered one. Both are the empty line of the framing theorems. Before the login
  the first frees what has been entered without forgetting it, and the second makes
  `chatd/net/connection/handle_payload.cpp:100` read the byte before the buffer.

## Model

| member | source | states |
|---|---|---|
| `Ring.SlotIsModulo` | chatd/collections/ringbuffer.c:52-55 | `%`, as in `get`, `remove` and `shrink`, and stepping with `ringbuffer_inc` and `ringbuffer_dec` reach the same cell |
| `Ring.RingBuffer.WithCapacity` | chatd/collections/ringbuffer.c:14-30 | an empty valid buffer; capacity 0 is refused with the out-of-memory code |
| `Ring.RingBuffer.FromVec` | chatd/collections/ringbuffer.c:32-43 | takes over the vector's block and holds its elements, full or not |
| `Ring.RingBuffer.Get` | chatd/collections/ringbuffer.c:52-55 | index i below the size gives the i-th element; above it, the cell modulo the capacity |
| `Ring.RingBuffer.Iterate` | chatd/collections/ringbuffer.h:30-37 | the forward macro visits every (index, element) in order |
| `Ring.RingBuffer.IterateReverse` | chatd/collections/ringbuffer.h:39-51 | the reverse macro visits them from the last to the first |
| `Ring.ShiftLeft` | chatd/collections/ringbuffer.c:178-179 | the overlapping copy to the left never overwrites a cell it still has to read |
| `Ring.MovedInTwoParts` | chatd/collections/ringbuffer.c:174-181 | expanding by no more than the wrapped part: the two moves leave every logical element where the longer array looks for it |
| `Ring.MovedAtOnce` | chatd/collections/ringbuffer.c:182-187 | the same when the wrapped part fits into the new space, full buffers included |
| `Ring.RingBuffer.Expand` | chatd/collections/ringbuffer.c:150-193 | keeps the logical sequence in every layout; error code and capacity in every case |
| `Ring.LogicalUpdate` | chatd/collections/ringbuffer.c:195-241 | one store into a cell changes one position of the logical sequence and no other |
| `Ring.RingBuffer.OpenGap` | chatd/collections/ringbuffer.c:207-213 | the shifting loop of `insert` moves the positions from the index on up by one, across the wrap |
| `Ring.RingBuffer.Insert` | chatd/collections/ringbuffer.c:195-220 | is sequence insertion at any index up to the size, grows by 16 exactly when full, and rejects a larger index unchanged |
| `Ring.RingBuffer.CloseGap` | chatd/collections/ringbuffer.c:230-235 | the shifting loop of `remove`, with its extra copy through the head cell, closes the gap also in a full buffer |
| `Ring.RingBuffer.Remove` | chatd/collections/ringbuffer.c:222-241 | is sequence deletion and hands out the element; rejects an index not below the size unchanged |
| `Ring.RingBuffer.PushFront` | chatd/collections/ringbuffer.c:243-258 | appends at the end of the logical sequence |
| `Ring.RingBuffer.PopFront` | chatd/collections/ringbuffer.c:260-272 | takes the last element, or reports empty |
| `Ring.RingBuffer.PushBack` | chatd/collections/ringbuffer.c:274-290 | prepends to the logical sequence |
| `Ring.RingBuffer.PopBack` | chatd/collections/ringbuffer.c:292-303 | takes the first element, or reports empty |
| `Ring.RingBuffer.TrimInto` | chatd/collections/ringbuffer.c:90-109 | moves `head` back to the new capacity and hands exactly the elements behind it, in order, to the destination |
| `Ring.RingBuffer.Rebase` | chatd/collections/ringbuffer.c:111-132 | moves the kept elements to the front of the block, straight or wrapped; reads past the block exactly on `ReadsPastEnd` |
| `Ring.RingBuffer.Shrink` | chatd/collections/ringbuffer.c:57-148 | as written: kept elements followed by trimmed ones are the old contents, and the buffer is valid, if and only if `ShrinksAsDocumented`; out-of-block reads if and only if `ReadsPastEnd`; the exact state in the other failing cases |
| `RingRuns.PerformAll` | chatd/collections/ringbuffer.c:9-303 | over every run of pushes, pops, inserts, removes, expansions and shrinks, with or without a destination: valid, and contents, capacity, start cell, result codes and elements handed out are those of the run on a plain sequence; passed over are exactly the shrinks that are not `IsFaithful` where they come |
| `RingRuns.CapacityIsBounded` | chatd/collections/ringbuffer.c:150-290 | over every run the capacity is at most the maximum of the start, the explicit requests and peak size + 15 |
| `RingRuns.LayoutDoesNotShow` | chatd/collections/ringbuffer.c:150-303 | without shrinks, buffers that hold the same elements in any capacities and layouts answer alike |
| `RingRuns.FirstInFirstOut` | chatd/collections/ringbuffer.c:243-303 | over every run of pushes at the front and pops at the back: what came out and then what is in it are what was in it and then what went in |
| `RingRuns.LastInFirstOut` | chatd/collections/ringbuffer.c:195-303 | at either end and at any index, what went in last comes out first and leaves the rest as it was |
| `RingRuns.ResizingKeeps` | chatd/collections/ringbuffer.c:57-193 | a shrink into a destination, unless passed over, loses no element; an expansion changes only the capacity |
| `RingRuns.Reach` | chatd/collections/ringbuffer.c:14-303 | every layout is reached by pushes and pops |
| `RingRuns.PushAll` | chatd/collections/ringbuffer.c:243-258 | n pushes into an empty buffer of capacity c expand it exactly ceil(max(0, n - c) / 16) times |
| `RingRuns.InsertThenRemove` | chatd/collections/ringbuffer.c:195-241 | remove undoes insert at the same index, even when the insert expanded |
| `RingRuns.ShrinkLeavesHeadOutside` | chatd/collections/ringbuffer.c:80-88 | every buffer whose elements end exactly at the new capacity: head is left one past the block |
| `RingRuns.ShrinkReadsOutside` | chatd/collections/ringbuffer.c:115-126 | every buffer with fewer elements than the new capacity, some behind it, and fewer cells than that to the end: the copy loop reads past the block |
| `RingRuns.ShrinkToNothingDrops` | chatd/collections/ringbuffer.c:68-76 | every non-empty buffer shrunk to nothing: its elements never reach the destination |
| `Vectors.Vec.Expand` | chatd/collections/vec.c:72-90 | keeps the contents; code and capacity in every case |
| `Vectors.Vec.Shrink` | chatd/collections/vec.c:38-70 | kept followed by destination is the old contents, whether or not the destination had to grow; an equal or larger capacity leaves both alone |
| `Vectors.Vec.Insert` | chatd/collections/vec.c:92-112 | is sequence insertion, growing by 16 exactly when full |
| `Vectors.Vec.Remove` | chatd/collections/vec.c:119-133 | is sequence deletion |
| `Vectors.Vec.IndexOf` | chatd/collections/vec.c:135-146 | the first index that holds the value, or none |
| `Vectors.Vec.RemoveByValue` | chatd/collections/vec.c:148-153 | deletes the first occurrence and nothing else |
| `Vectors.WithoutFirstAt` | chatd/collections/vec.c:148-153 | deleting a value's first occurrence, defined by recursion, is deletion at its first index |
| `Vectors.Vec.Pop` | chatd/collections/vec.c:155-158 | takes the last element, or is out of bounds |
| `Vectors.PerformAll` | chatd/collections/vec.c:38-158 | over every run, contents, capacity, result codes and elements handed out are those of the run on a plain sequence |
| `Vectors.LastInFirstOut` | chatd/collections/vec.c:92-158 | push then pop, and insert then remove at any index, give the element back and leave the rest as it was |
| `Vectors.PushedIsRemoved` | chatd/collections/vec.c:114-153 | a value that was not there, pushed, is removed again by value |
| `Vectors.ResizingKeeps` | chatd/collections/vec.c:38-90 | a shrink into a destination loses no element; an expansion changes none |
| `Framing.LinesCutTheText` | chatd/net/tcp/stream.c:21-95 | the split of a text: the lines with their delimiters and the rest are the text |
| `Framing.LinesHoldNoDelimiter` | chatd/net/tcp/stream.c:21-95 | no line and no rest holds the delimiter |
| `Framing.LinesOfJoined` | chatd/net/tcp/stream.c:21-95 | that cut is the only one: joining delimiter-free lines and splitting gives them back |
| `Framing.CutIsWhole` | chatd/net/tcp/stream.c:53-61 | cutting a text into chunks of any sizes loses nothing |
| `Framing.EveryCutArises` | chatd/net/tcp/stream.c:53-61 | every way a text can arrive is such a cut |
| `Framing.LinesOfTwo` | chatd/net/tcp/stream.c:21-95 | the lines of a text in two parts: the second goes on where the first leaves a line open |
| `Framing.TcpStream.Write` | chatd/net/tcp/stream.c:14-19 | appends what the peer takes; OK exactly when the socket is open and that is everything |
| `Framing.TcpStream.TakeBuffered` | chatd/net/tcp/stream.c:24-44 | cuts a buffered line and shifts the rest down in place |
| `Framing.TcpStream.TakeChunk` | chatd/net/tcp/stream.c:63-78 | splits one chunk between line and buffer |
| `Framing.TcpStream.ReadUntil` | chatd/net/tcp/stream.c:21-95 | line, delimiter and leftover are exactly the buffered and received bytes; leftover below 128; `read` is called no more often than needed; fails exactly at end of input, dropping only the unterminated tail; NULL exactly for an empty line found while reading |
| `Framing.TcpStream.ReadLines` | chatd/net/connection/connection.cpp:63-70 | repeated calls give exactly the lines of all the bytes, however they are chunked |
| `Payloads.Clean` | chatd/protocol/payload.cpp:14-23 | strips one trailing CR and accepts exactly the printable texts |
| `Payloads.Tokenize` | chatd/protocol/payload.cpp:25-56 | the in-place tokenizer: the NUL-terminated strings at the recorded offsets are the taken pieces, and the word selects the command |
| `Payloads.SplitTarget` | chatd/protocol/payload.cpp:77-99 | accepts exactly a first space at s with 2 <= s <= len - 2 and writes only that cell |
| `Payloads.ParsePayload` | chatd/protocol/payload.cpp:14-135 | the in-place parser computes `ParseLine`: rejection, crash, or C strings in the buffer that spell the payload |
| `Payloads.ParseInPlace` | chatd/protocol/payload.cpp:14-135 | for every line: put into a buffer, parsed in place and read back as C strings, it gives what `ParseLine` says |
| `PayloadLaws.TakenAllOrAllButOne` | chatd/protocol/payload.cpp:28-54 | the tokenizer takes exactly the space-separated arguments, except a lone last character |
| `PayloadLaws.ReadAsDocumented` | chatd/protocol/payload.cpp:25-76 | the code reads a line as documented if and only if it is not `Misread` |
| `PayloadLaws.OneLetterChannel` | chatd/protocol/payload.cpp:49-51 | `/delete c` with a one-letter channel is rejected |
| `PayloadLaws.LoneSlash` | chatd/protocol/payload.cpp:25-59 | the parser dereferences the null command on exactly two buffers: `/`, with or without a carriage return |
| `PayloadLaws.PrintedArgsAreTaken` | chatd/protocol/payload.cpp:28-54 | arguments each followed by a space are taken back, whatever the number of extra spaces |
| `PayloadLaws.CommandRoundTrip` | chatd/protocol/payload.cpp:25-76 | a printed command parses to itself, with any extra spaces and with or without CR |
| `PayloadLaws.AcceptedPrintsBack` | chatd/protocol/payload.cpp:77-134 | an accepted message prints back as its line less the CR |
| `PayloadLaws.PrintedParsesBack` | chatd/protocol/payload.cpp:77-134 | a printed message parses to itself |
| `PayloadLaws.AcceptedMessages` | chatd/protocol/payload.cpp:77-134 | a line is accepted as a message if and only if it is a printed one |
| `TypedLines.SubscribeIsRead` | chatd/protocol/payload.cpp:34-35 | `/subscribe NAME PASSWORD`, closed by a space or ending in a word of two characters, is that command with these arguments |
| `TypedLines.UnsubscribeIsRead` | chatd/protocol/payload.cpp:36-37 | likewise `/unsubscribe NAME` |
| `TypedLines.DeleteIsRead` | chatd/protocol/payload.cpp:38-39 | likewise `/delete NAME` |
| `TypedLines.ListUsersIsRead` | chatd/protocol/payload.cpp:40-42 | likewise `/list_users NAME` and `/listusers NAME` |
| `TypedLines.LogoutIsRead` | chatd/protocol/payload.cpp:43-44 | `/logout` is that command, without arguments |
| `TypedLines.CommandsStartSo` | chatd/protocol/payload.cpp:25-76 | a line accepted as a command starts with a slash and one of the six words, which decides its kind, and has the number of non-empty words behind it that the kind needs |
| `TypedLines.DirectIsRead` | chatd/protocol/payload.cpp:77-99 | `@NAME TEXT` is a direct message of that text to that name if and only if neither is empty and all is printable ASCII; otherwise it is rejected |
| `TypedLines.GroupIsRead` | chatd/protocol/payload.cpp:77-99 | likewise `#NAME TEXT`, to that channel |
| `TypedLines.NoContentIsRejected` | chatd/protocol/payload.cpp:78-99 | a target without a space behind it is rejected |
| `TypedLines.GlobalIsRead` | chatd/protocol/payload.cpp:122-134 | any line that starts with none of the three signs is a message to all if and only if it is not empty and printable ASCII |
| `TypedLines.OneReturnIsDropped` | chatd/protocol/payload.cpp:14-23 | one carriage return at the end of a printable line changes nothing; any other makes it rejected |
| `Messages.WritePart` | chatd/protocol/message.cpp:10-12 | one write with early return: on failure the stream has taken the longest prefix it had room for |
| `Messages.Send` | chatd/protocol/message.cpp:14-41 | the three serialisers send `Render`, or a cut-off prefix and report failure |
| `Messages.DecodeUndoesRender` | chatd/protocol/message.cpp:14-41 | kind, channel, sender and content can be read off every rendered line, by a reader that insists on every byte between them |
| `Messages.LinesAreSingle` | chatd/protocol/message.cpp:14-41 | a rendered message is a single line |
| `Transmission.Transmitter.PushPayload` | chatd/net/connection/connection.cpp:126-132 | queues at the end and loses nothing |
| `Transmission.Transmitter.SendBuff` | chatd/net/connection/connection.cpp:134-146 | queues the text, or drops it once the connection is terminating gracefully |
| `Transmission.Transmitter.Round` | chatd/net/connection/connection.cpp:94-116 | takes the oldest payload; written, or failed and the loop over; nothing is taken after a failure |
| `Transmission.Transmitter.Drain` | chatd/net/connection/connection.cpp:94-116 | empties the queue unless a write fails; with room, the stream carries all bytes pushed |
| `Transmission.Transmitter.Terminate` | chatd/net/connection/connection.cpp:167-172 | closes the stream, so that nothing is written any more |
| `Transmission.Transmitter.Rounds` | chatd/net/connection/connection.cpp:94-116 | with room, n rounds take exactly the n oldest payloads off the queue, or all there are |
| `Transmission.Transmitter.Run` | chatd/net/connection/connection.cpp:75-172 | over every interleaving: written, then at most one failed, then queued is what was pushed; written only grows, and not after a failure or once the connection is killed; without a failure exactly `Left` payloads are waiting; and it is killed exactly if it was terminated, or came to the end of a drain while terminating gracefully |
| `Transmission.RoundsEmpty` | chatd/net/connection/connection.cpp:94-116 | `Left` after rounds alone: as many rounds as payloads leave none waiting, fewer leave the others |
| `Outboxes.WireFormatIsReadable` | chatd/protocol/message.cpp:14-41 | splitting the bytes of any letters at newlines and decoding gives the letters back |
| `Outboxes.LetterEndsALine` | chatd/protocol/message.cpp:14-41 | a letter behind any text completes the line that text leaves open, and leaves none open |
| `Outboxes.LetterIsShown` | chatd/net/connection/connection.cpp:94-116 | in any queue of literals, buffers and letters whose letters start lines, each letter is a line of its own that shows what it says, behind the lines of what was queued before |
| `Outboxes.MessagesAreLetters` | chatd/net/connection/connection.cpp:94-116 | if also nothing else looks like a message, the messages a client reads are exactly the letters, in order |
| `Transmission.DrainAndRead` | chatd/net/connection/connection.cpp:94-132 | any queue, drained: written is what was pushed, the stream carries its bytes, and a client that receives them in chunks of any sizes reads the lines of that text |
| `EndToEnd.QueuesAreReadable` | chatd/net/connection/handle_payload.cpp:11-192 | after any run of a server that starts empty, every letter in every queue, among prompts and replies, is a line that shows it; and if a client's own lines are tidy, the letters are its only messages, in order, whatever the other clients type |
| `EndToEnd.TypedLineIsShown` | chatd/protocol/payload.cpp:77-134 | what one client typed is what another is shown |
| `EndToEnd.TypedMessageArrives` | chatd/net/connection/handle_payload.cpp:26-97 | after any run, a message typed on one connection adds to what each client sees whose own lines are tidy exactly: one direct message if it names the client's user; one channel message if sender and the client's user, another one, are both in the channel; otherwise one for each channel they share; with the sender and the text typed |
| `EndToEnd.TypedToRead` | chatd/protocol/message.cpp:14-41 | the line typed and the line read, byte by byte: `@NAME TEXT` is read as `<DM> @SENDER: TEXT`, `#NAME TEXT` as `#NAME @SENDER: TEXT`, and `TEXT` as `<Global> @SENDER: TEXT` |
| `EndToEnd.PushPayloads` | chatd/net/connection/connection.cpp:94-132 | pushes with any number of transmit rounds between them lose nothing, and use exactly the room they need |
| `EndToEnd.SendAndRead` | chatd/net/connection/connection.cpp:75-132 | from an empty connection: any payloads, any rounds between the pushes, chunks of any sizes: all is written in order, and the client reads the lines of that text, with exactly the letters as its messages |
| `EndToEnd.ServeAndRead` | chatd/net/connection/connection.cpp:75-132 | the whole way: an empty server serves any events, and the queue of any connection goes through ring buffer, stream and chunks to a client that reads the lines of that text and, if its own lines are tidy, sees exactly the letters that run queued |
| `Pools.ConnectionPool.GetUser` | chatd/net/server/connection_pool.ipp:10-34 | finds the user of that name, or there is none |
| `Pools.ConnectionPool.GetChannel` | chatd/net/server/connection_pool.ipp:10-34 | finds the channel of that name, or there is none |
| `Pools.ConnectionPool.PushUser` | chatd/net/server/connection_pool.ipp:36-60 | adds exactly when no name is equal |
| `Pools.ConnectionPool.PushChannel` | chatd/net/server/connection_pool.ipp:36-60 | adds exactly when no name is equal |
| `Pools.ConnectionPool.RemoveChannel` | chatd/net/server/connection_pool.ipp:62-88 | takes out the channel of that name and keeps the order of the others |
| `Commands.Subscribe` | chatd/protocol/command.cpp:10-65 | joins, creates or refuses, with the exact reply; both lists gain one entry each and the links hold |
| `Commands.Unsubscribe` | chatd/protocol/command.cpp:67-99 | both lists lose exactly one entry; the channel goes exactly with its last user |
| `Commands.DeleteCorrected` | chatd/protocol/command.cpp:101-145 | deletion as intended: the channel leaves the pool and every list, nothing else changes |
| `Commands.Delete` | chatd/protocol/command.cpp:101-145 | as written: does what deletion is for, and keeps the links, if and only if `DeleteHitsItsChannel` |
| `Commands.TakeFirstEntries` | chatd/protocol/command.cpp:125-137 | as written: what the scan leaves of every member's list |
| `Commands.DeleteTakesTheWrongChannel` | chatd/protocol/command.cpp:129-135 | every user who deletes a channel that is not the first on their list stays on the list of the dead channel and falls off that of the first |
| `Rooms.ObeyKeeps` | chatd/protocol/command.cpp:10-145 | any order keeps membership recorded on both sides alike, free of duplicates, and no channel empty |
| `Subscriptions.SubscribeObeys` | PROTOCOL.md:7-9 | the pool stays the table of accounts and rooms, in joining order, that the documentation describes, and the reply is the right one |
| `Subscriptions.UnsubscribeObeys` | PROTOCOL.md:11-12 | likewise |
| `Subscriptions.DeleteObeys` | PROTOCOL.md:18-19 | likewise, deletion corrected |
| `Subscriptions.HitsAlike` | chatd/protocol/command.cpp:125-137 | whether the deletion as written does that can be read off the table |
| `Subscriptions.DeleteAsWritten` | chatd/protocol/command.cpp:101-145 | deletion as written: the documented table if and only if `HitsItsRoom`, otherwise broken links |
| `Subscriptions.OneTable` | chatd/protocol/protocol.hpp:21-52 | the pool represents one table only |
| `Subscriptions.RunKeeps` | chatd/protocol/command.cpp:89-90 | no run of orders leaves a channel empty or recorded on one side only |
| `Subscriptions.Run` | chatd/protocol/command.cpp:10-145 | over every sequence of orders: lists converse and duplicate-free, names distinct, channels non-empty, and the table that of the documented orders |
| `Routing.SendMsg` | chatd/net/server/connection_pool.cpp:70-82 | one copy to each connection of that user, none to the others |
| `Routing.RouteDirect` | chatd/net/connection/handle_payload.cpp:42-45 | a direct message goes to the target's connections only |
| `Routing.RouteGroup` | chatd/net/connection/handle_payload.cpp:46-76 | one copy to each connection of each other member if and only if the sender is a member |
| `Routing.CountsShared` | chatd/net/connection/handle_payload.cpp:84-95 | walking the sender's channels meets another user once for each shared channel |
| `Routing.RouteGlobal` | chatd/net/connection/handle_payload.cpp:77-97 | as many copies as shared channels to every other user's connections, none to the sender's own |
| `Sessions.TakeName` | chatd/net/connection/handle_payload.cpp:105-133 | accepts exactly the names of 2 to 20 letters, digits and underscores, read as a C string, and sends the right prompt |
| `Sessions.TakePassword` | chatd/net/connection/handle_payload.cpp:134-147 | accepts exactly 8 to 64 bytes without a NUL, and sends the right prompt |
| `Sessions.Decide` | chatd/net/connection/handle_payload.cpp:149-190 | creation, refusal, comparison or question: the new table, login state and reply; a refused creation also frees the name and password, which it does not forget |
| `Sessions.Login` | chatd/net/connection/handle_payload.cpp:99-191 | any line before the login: its new table, login state and reply; or the byte read before an empty line, or a look at a name that has been freed, by a NULL line or a refused creation |
| `Sessions.CopyName` | chatd/protocol/command.cpp:177-180 | the copy holds the name, and its NUL fits exactly when the block has a byte to spare |
| `Sessions.List` | chatd/protocol/command.cpp:152-191 | the members of the channel in joining order, or the refusal; exactly for a member, and without a byte to spare behind the blocks, it writes past the first of them |
| `Sessions.RunCommand` | chatd/net/connection/handle_payload.cpp:34-37 | a command as written: the new table and the reply, or a listing that writes past a block, or a deletion that goes wrong |
| `Sessions.RunMessage` | chatd/net/connection/handle_payload.cpp:38-97 | every connection gets its number of copies, and the sender what it is told |
| `Sessions.SharedAlike` | chatd/net/connection/handle_payload.cpp:84-95 | two users share as many channels as rooms |
| `Sessions.HandlePayload` | chatd/net/connection/handle_payload.cpp:26-98 | a line of an authenticated connection, through the in-place parser: exact table, exact queues, and how it ends |
| `Sessions.HandleLine` | chatd/net/connection/handle_payload.cpp:11-192 | any line, NULL or empty ones too, of any connection, is the step of `Relay` |
| `Sessions.Accept` | chatd/net/server/connection_pool.cpp:55-68 | a new connection starts with the welcome text queued |
| `Sessions.OneState` | chatd/net/connection/handle_payload.cpp:11-192 | a server is in one state of `Relay` only |
| `Sessions.Serve` | chatd/net/connection/handle_payload.cpp:11-192 | over every interleaving of new connections and lines, the server is in the state `Relay` computes from its first one: accounts, channels, who is logged in as whom, and every queue, up to the first step with one of the fates of `Relay.Fate`, and that step and its fate are the ones `Relay` computes |
| `RelayLaws.RunKeepsGood` | chatd/net/connection/handle_payload.cpp:11-192 | every run keeps names and passwords legal, membership in agreement, each letter at the start of a line, and in every queue only letters of account holders meant for its reader |
| `RelayLaws.RunGrows` | chatd/net/connection/handle_payload.cpp:11-192 | accounts keep their passwords, whoever is logged in stays logged in under that name, and queues only grow |
| `RelayLaws.RunIsVouched` | chatd/net/connection/handle_payload.cpp:134-190 | whoever is logged in has typed the password of that account on that connection |
| `RelayTexts.RunStaysPlain` | chatd/net/connection/handle_payload.cpp:99-191 | to a client whose own lines are tidy no prompt, reply or listed name ever looks like a message |
| `RelayRuns.RunsFromTheStart` | chatd/net/connection/handle_payload.cpp:11-192 | all of this, of every run from the empty server |
| `RelayRuns.FreedExactly` | chatd/net/connection/handle_payload.cpp:15-24 | over every run from the empty server: what a connection has entered is freed if and only if it has, before its login, read a NULL line with its name accepted, or answered yes for a name already taken (lines 149-169, and `User::~User`) |
| `RelayRuns.FreedMemoryIsUsed` | chatd/net/connection/handle_payload.cpp:149-190 | a run that went well so far next uses freed memory if and only if such a connection reads NULL again, or a line with which name and password are complete and which answers yes, or is no answer while there are accounts to compare with |
| `RelayRuns.EveryoneIsConnected` | chatd/net/connection/handle_payload.cpp:149-190 | while no connection is removed, every account has one that is logged in to it |
| `RelayLogin.NameIsRead` | chatd/net/connection/handle_payload.cpp:105-133 | a line for a connection without a name: the new state and the prompt, exactly, for legal names, names of a wrong length and others, up to the first NUL |
| `RelayLogin.BadPasswordIsRead` | chatd/net/connection/handle_payload.cpp:134-147 | a line that cannot be a password: only the prompt |
| `RelayLogin.YesIsRead` | chatd/net/connection/handle_payload.cpp:151-165 | the answer yes makes the account with the entered password and logs in; or, if the name is taken by then, ends the connection and frees what it entered |
| `RelayLogin.NoIsRead` | chatd/net/connection/handle_payload.cpp:166-169 | the answer no ends the connection and makes no account |
| `RelayLogin.PasswordIsCompared` | chatd/net/connection/handle_payload.cpp:170-189 | without an answer to take: logged in if and only if that is the password of the account of that name; a wrong one is forgotten and asked for again; without such an account the client is asked whether to make one; nothing else changes |
| `RelayLogin.NothingIsRead` | chatd/net/connection/handle_payload.cpp:15-24 | before the login, a NULL line frees what was entered, or uses it if it is freed; an empty line reads the byte before it |
| `RelayCommands.SubscribingJoins` | chatd/protocol/command.cpp:10-65 | by somebody not in the channel, with its password or none of that name there: the user comes last in it, and it last on the user's list; nothing else changes |
| `RelayCommands.SubscribingFails` | chatd/protocol/command.cpp:17-36 | by a member, or with another password: only the reply |
| `RelayCommands.UnsubscribingLeaves` | chatd/protocol/command.cpp:67-99 | by a member: exactly that one membership goes, from both sides, and the channel with its last member; the order of the others stays |
| `RelayCommands.UnsubscribingFails` | chatd/protocol/command.cpp:98-98 | by anybody else: only the reply |
| `RelayCommands.DeletingRemoves` | chatd/protocol/command.cpp:101-145 | by a member: removes exactly that channel and its memberships if it is first on every member's list and the user has another or joined last; otherwise the run ends with a deletion gone wrong |
| `RelayCommands.DeletingFails` | chatd/protocol/command.cpp:142-144 | by anybody else: only the reply |
| `RelayCommands.ListingLists` | chatd/protocol/command.cpp:152-191 | a member reads the names in joining order with a comma between any two, or, while terminating, the commas alone; anybody else the refusal; without a byte to spare it writes past a block; it changes nothing |
| `RelayCommands.LoggingOutLeaves` | chatd/protocol/command.cpp:147-150 | makes that connection leave, and changes nothing else |
| `RelayCommands.OtherLines` | chatd/net/connection/handle_payload.cpp:27-32 | a rejected line is answered and changes nothing; a lone slash dereferences the null command |
| `RelayMessages.DirectReaches` | chatd/net/connection/handle_payload.cpp:42-45 | each connection logged in as the target has exactly one letter more; every other queue, the sender's included, and the accounts and channels stay as they were |
| `RelayMessages.GroupReaches` | chatd/net/connection/handle_payload.cpp:46-76 | from a member: one letter for each connection of each other member; from anybody else: the refusal; nothing else |
| `RelayMessages.GlobalReaches` | chatd/net/connection/handle_payload.cpp:77-97 | for each connection of each other user as many letters as the two have channels in common; the refusal exactly if the sender is in no channel; nothing else |
| `Dialogues.Enters` | chatd/net/connection/handle_payload.cpp:99-191 | a new connection that types a name and a password, at any time: logged in exactly with the account's own password; all it is sent; nothing else changes |
| `Dialogues.SignsUp` | chatd/net/connection/handle_payload.cpp:149-165 | ... and then yes: there is that account, and it is logged in to it |
| `Dialogues.ComesBack` | chatd/net/connection/handle_payload.cpp:149-190 | after any run: who has signed up on one connection comes in on the next if and only if it types that password, and is then logged in on both |
| `Dialogues.SigningUpReads` | chatd/net/connection/handle_payload.cpp:105-175 | the text of that dialogue, word for word |
| `Dialogues.LeavingUndoesJoining` | chatd/protocol/command.cpp:10-99 | the typed lines `/subscribe` and `/unsubscribe`, one after the other, leave accounts and channels as they were |
| `Dialogues.DeletesTheWrongOne` | chatd/protocol/command.cpp:125-137 | at any time: the typed line `/delete` for a channel of one's own that is not the first on one's list ends the run with a deletion that has gone wrong |
| `Dialogues.WrongChannelIsReached` | chatd/protocol/command.cpp:125-137 | from the empty server, in typed lines: whoever registers, makes any two channels and deletes the second ends the run so |
| `Replies.FirstWordTells` | chatd/net/connection/handle_payload.cpp:27-189 | the first word of every reply: `ERR` for a refusal, `EXIT` for an end before the login, `SRV` otherwise |
| `Replies.TextsDiffer` | chatd/protocol/command.cpp:10-191 | no two of the fixed texts, here and in the login, read alike |
| `Sweeping.Visit` | chatd/net/server/connection_pool.cpp:30-38 | one round, stepping back at a removal |
| `Sweeping.SelectHolds` | chatd/net/server/connection_pool.cpp:29-39 | the selected connections are those, each once |
| `Sweeping.Sweep` | chatd/net/server/connection_pool.cpp:29-39 | leaves exactly the ready connections in order and shuts down each other one exactly once, terminating; the last sweep shuts down all and removes none |

## Left out

- `Sessions.Serve`: ends at the first step with a memory access that is not allowed (through a null command, before an empty line, past a listed name's block, to a name or password that has been freed) and at the first deletion that does not hit its channel, because the code promises nothing after the one and the links every later command relies on are broken after the other. Of memory accesses that are not allowed it covers these, and no others.
- `RingRuns.PerformAll`: passes over a shrink that is not `ShrinksAsDocumented`, because the buffer is not a valid one after it.
- `Sweeping.Sweep`: a shutdown is a recorded call; what it does to the connection's threads is not part of this model.
- `Framing.TcpStream.Write`: a failing send is a send of fewer bytes than asked; which errno it sets is not modelled.
- Failing allocations: every `malloc` and `realloc` succeeds.
- Memory ownership beyond the entered name and password: shared pointers, what the other destructors free, and leaks.
- The lifetime of a message: each `send_msg` (`chatd/net/server/connection_pool.cpp:71-73`) makes an owner of its own for the message, so a message with several recipients is freed as soon as one of these owners is done with it. That can be before the next recipient's turn, if there are several recipients and one of them has no connection; after transmission, if all have one. The model queues and sends each copy unharmed. In the runs of `Sessions` every account has a connection (`RelayRuns.EveryoneIsConnected`), so the first of the two needs a sweep.
- What `isalnum` does with bytes above 127, which it is given as negative numbers where `char` is signed.
- Threads: lock order, condition variables and wake-ups; interleavings inside one command, such as between looking a channel up and joining it, and a drain without the lock.
- Whether terminating gracefully drains the queue: a push and the flag can fall between the code's two tests.
- The sockets themselves, the listener, `main` and the accept loop.
- `EndToEnd.ServeAndRead`: what a connection has pushed (`Routing.Connection.outbox`) is replayed into the ring buffer of `Transmission.Transmitter`, with any rounds in between, after the run rather than during it; and the peer takes everything.
- Connections that the sweep has removed: `Routing` and `Sessions` keep them as connections without further lines, whose queue nobody reads any more; so in the runs of `Sessions` no user is ever without a connection, as one can be after a sweep.
- The connection list as a `Vec` in `Routing` and `Sessions`: there it is a sequence, as are the tables and the lists of users and channels; `Vectors` proves that the vector is one.
- The C++ wrappers of the two containers.
