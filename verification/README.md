# afpfs-ng: a verified model of the AFP client library

afpfs-ng is a client for Apple's file sharing protocol. This project models the parts of its library that
have loops, state or arithmetic, and proves what they are for: that packets are put together whatever
pieces the network delivers them in, exactly when the client with its cache of directory IDs behaves like one
without, that names survive the conversion to the server's form and back, that a transfer in pieces is the
transfer that was asked for, that the parsers undo the printers, and that the end of a mount touches
nothing that is gone.

| file | models |
|---|---|
| `Dsi.dfy`, `DsiRuns.dfy`, `DsiSessions.dfy`, `DsiServer.dfy` | the DSI transport: one receive call and any stream in any pieces; packet-wise runs of sends, replies and leaving senders; whole sessions byte by byte, with senders coming and leaving inside packets; and the session object that the C code updates in place |
| `DidCache.dfy`, `Resolution.dfy`, `Calls.dfy`, `Volume.dfy` | the server tree and the list of cached directory IDs; what the resolution of a path does to it; what the calls by path do, one by one and in runs; and the volume object that the C code updates in place |
| `Unicode.dfy`, `Codepage.dfy`, `CodepageBuffers.dfy` | the composition search, the UTF-8/UCS-2 codec, the composition fold, and the path conversions on their buffers |
| `Transfer.dfy`, `Readdir.dfy` | writing and reading in pieces, enumerating in batches |
| `AfpUrl.dfy`, `Resource.dfy`, `ParamBlock.dfy` | URLs, `.AppleDouble` paths, parameter blocks: each with its inverse |
| `Unmount.dfy` | unmounting volumes and removing the server |
| `Strings.dfy`, `Bytes.dfy`, `Codes.dfy` | the C string searches, big-endian integers, result codes |

A method is the C function it is named after, in the form that function has (a class for the structure it
updates, an array for the buffer it fills); its `ensures` ties it to a function of its inputs, and the lemmas
say what that function means. Network, clock and server are parameters or arbitrary choices within what the
protocol allows.

## Where the code does not do what it is for

Each of these is proved as it is, with the exact condition under which the code is right.

- `get_dirid` does not look at the result of `afp_getfiledirparms`, and an error reply leaves the structure `fi` as it
  was: a component that does not exist is taken for the directory before it (or, if it is the first one asked for, for
  whatever was on the stack), cached under that ID and walked on from. With a tree of `/a` alone, resolving `/a/x/f`
  leaves an entry that says `/a/x` is `/a`, which hides a `/a/x` that is made later
  (`Resolution.MissingComponentIsCached`); with `/a` and `/a/b`, resolving `/a/x/b/f` ends in `/a/b`
  (`Resolution.MissingComponentIsSkipped`). Whatever coherent cache it meets and whatever is in `fi`, `get_dirid` is right
  if and only if no component of the parent's path is missing, where a file in the way is not missing
  (`Resolution.GetDiridRightIff`; for a given cache and `fi`, `Resolution.LocatedMeaning`).
- `afp_ml_rmdir` on a path with a file for a parent component deletes a directory of that name in the directory where the
  walk stopped, but takes the path asked for out of the cache (`Calls.RmdirBelowFile`). The calls that keep any coherent
  cache coherent are exactly the well-aimed ones: nothing missing on the way to the parent, and for an rmdir that deletes
  something, the parent is there (`Calls.CallSafeIff`). Runs of such calls answer as a client without a cache
  (`Calls.WellAimedRun`), and any run does as long as the condition of `Calls.RunRightIff` holds.
- When the sender of a read leaves, after its timeout, while the body of its reply is partly in, `dsi_recv` takes the
  rest for the beginning of another body, so the next packet is swallowed (`DsiSessions.AbandonedRead`,
  `DsiSessions.NextPacketSwallowed`, `DsiSessions.TimeoutInsideRead`).
- When it leaves before any of the body is in, the body goes to the packet buffer, and a reply longer than the buffer
  is written past its end; so is any other packet that is too long (`DsiSessions.LateReplyOverruns`).
  The transport is right, with all writes in bounds, the buffer empty between packets and every sender's own reply in its
  request, exactly in the sessions where neither happens (`DsiSessions.FramingHoldsIff`).
- `dsi_recv` asks for the whole body again when part of it is in, so bytes of the next packet can end up in the
  buffer; the branch for them neither keeps them in the right place nor sets `data_read` to their number
  (`Dsi.OverreadIff`).
- `find_dirid_by_fullname` drops an unexpired first entry when it is the only one and expired entries follow
  (`DidCache.SweptKeepsFresh`): the answer stays right, the entry is lost.
- `ll_write` ignores the result of every write and returns 0 even without a lock
  (`Transfer.WriteIsSpliceIff`, `Transfer.LlWrite`).
- `ll_readdir` returns 0 whether or not its list is complete; it is exactly when the directory did not vanish
  before its last entry was delivered (`Readdir.LlReaddir`, `Readdir.PartialListing`).
- `UTF8toUCS2` is undone by `UCS2toUTF8` exactly on strings in shortest form (`Unicode.EncodeOfDecodeIff`), and the
  path conversions are inverse exactly on names without a composable pair (`Codepage.PathRoundTripIff`). The
  comment above `UTF8toUCS2` promises a byte order independent of the machine; the branch for it never runs.
- `escape_strrchr` searches to the end of the string again instead of to the left, and never returns when the
  last colon follows another one; only if these two stand at the very start does it look at the byte in front of
  the string, and a zero there ends the search (`AfpUrl.SearchReturnsIff`). `afp_parse_url` hangs on such URLs and
  rejects any port when `errno` was left set (`AfpUrl.AfpUrl.ParseUrl`).
- Below directories without the word `.AppleDouble` in their path, `extra_translate` misreads exactly the files whose
  own names look like virtual ones (`Resource.ExtraTranslate`).
- `afp_setparms_lowlevel` stores only the high byte of the attributes, and `parse_reply_block` keeps only 16 bits of
  the resource fork's length (`ParamBlock.PackThenParse`, `ParamBlock.ParseReplyBlock`).

## Model

| member | source | states |
|---|---|---|
| `DsiServers.DsiServer.Receive` | afpfs-ng/lib/dsi.c:661-902 | `dsi_recv` on the session object: bytes are taken from the socket, at most what is asked for, and the new state, the result and the count of unmatched packets are those of one receive step; when nothing is there, nothing is lost |
| `DsiServers.DsiServer.ReceiveEmpty` | afpfs-ng/lib/dsi.c:692-703 | a packet without a body: read requests are finished, others handled and dropped |
| `DsiServers.DsiServer.ReceiveBody` | afpfs-ng/lib/dsi.c:692-790 | body bytes, of a reply to a read or of any other packet |
| `DsiServers.DsiServer.ReceiveIntoRequest` | afpfs-ng/lib/dsi.c:705-766 | a read's body goes into the request's own buffer, at most what the buffer and the header's length allow |
| `DsiServers.DsiServer.ReceiveIntoBuffer` | afpfs-ng/lib/dsi.c:767-838 | any other body goes into the packet buffer, and on to the handler when it is complete |
| `DsiServers.DsiServer.AfterPacket` | afpfs-ng/lib/dsi.c:838-894 | the end of a packet: the buffer and the queue afterwards |
| `DsiServers.DsiServer.DropPacket` | afpfs-ng/lib/dsi.c:838-870 | the buffer is empty after an exact packet, and otherwise what the branch for leftover bytes makes of it |
| `DsiServers.DsiServer.FinishRequest` | afpfs-ng/lib/dsi.c:872-893 | a waiting sender is woken, a request nobody waits for leaves the queue |
| `DsiServers.DsiServer.FindRequest` | afpfs-ng/lib/dsi.c:642-659 | the first request in the queue with that id, or none |
| `DsiServers.DsiServer.Send` | afpfs-ng/lib/dsi.c:38-54 | the next 16-bit id is taken and the request is queued last under it |
| `DsiServers.DsiServer.RemoveRequest` | afpfs-ng/lib/dsi.c:137-170 | exactly that request leaves the queue and the pending count drops; -1 and no change when it is not there |
| `DsiServers.DsiServer.LeaveQueue` | afpfs-ng/lib/dsi.c:258-336 | a sender comes back with the code in its own request, or with the timeout, and its request leaves the queue; if its request is gone already, nothing changes |
| `Dsi.OneRead` | afpfs-ng/lib/dsi.c:661-902 | from the state after n bytes of a stream, one receive call on any allowed piece leads to the state after n + piece bytes |
| `Dsi.DeframingIndependentOfChunking` | afpfs-ng/lib/dsi.c:661-902 | whatever the pieces, while no sender comes or leaves: after any beginning of a schedule the state depends only on how many bytes are in, every call returns 0, never asks past its buffer and the pieces fit what it asks for |
| `Dsi.FrameBoundary` | afpfs-ng/lib/dsi.c:838-894 | at the end of every packet of a stream the state is the one of delivering whole packets, with nothing in the packet buffer |
| `Dsi.NothingBeforeTheLastByte` | afpfs-ng/lib/dsi.c:788-789 | inside a packet nobody is woken, nothing is handled and no request leaves the queue |
| `Dsi.EveryReplyReachesItsRequest` | afpfs-ng/lib/dsi.c:642-902 | one reply for each of any queued requests, in any order and any pieces: each waiting request ends with its own reply's code and payload and is marked done, a request nobody waits for leaves the queue, the handlers get exactly the packets meant for them, and the packet buffer is empty |
| `Dsi.HeaderComesBack` | afpfs-ng/lib/dsi_protocol.h:20-30 | flags, command, request id, return code and length are read from where the protocol puts them, the numbers in network order and the code with its sign |
| `Dsi.AccessDeniedHeader` | afpfs-ng/lib/dsi_protocol.h:20-30 | the sixteen bytes of an access-denied reply, field by field |
| `Dsi.WaitingSenderGetsReply` | afpfs-ng/lib/dsi.c:642-902 | with any other replies and any pieces: a waiting sender's request is done, with the code that its reply was written with and, for subcommands 27 and 60, the reply's body |
| `Dsi.PassedOnNumbers` | afpfs-ng/lib/dsi.c:794-820 | which replies a handler sees, by subcommand and command number |
| `Dsi.UnknownCommandFails` | afpfs-ng/lib/dsi.c:832-835 | a complete packet with an unknown command: -1, and it stays in the buffer |
| `Dsi.OverreadIff` | afpfs-ng/lib/dsi.c:774-870 | after a completed packet the buffer is empty exactly when no byte past it was read; otherwise it holds one packet's length of bytes, the first of them copied from offset length on |
| `Dsi.RepliesHandled` | afpfs-ng/lib/dsi.c:794-820 | the handlers see the replies that are theirs, in order |
| `Dsi.DeliverToQueued` | afpfs-ng/lib/dsi.c:703-893 | a reply changes exactly the request it belongs to, or removes it when nobody waits for it |
| `Dsi.RepliesSettle` | afpfs-ng/lib/dsi.c:703-893 | after any number of replies every request has its own reply's answer and no other, or is gone, and the order is as before |
| `Dsi.RepliesCounted` | afpfs-ng/lib/dsi.c:735-786 | counts of pending requests and received bytes |
| `DsiRuns.StepKeepsQueue` | afpfs-ng/lib/dsi.c:137-336 | every send, reply and leaving sender keeps: pending count equal to the queue's length, ids those of the issue order modulo 65536, oldest first, done only when no longer waiting |
| `DsiRuns.RunKeepsQueue` | afpfs-ng/lib/dsi.c:137-336 | the same over any packet-wise run |
| `DsiRuns.SameIdIff` | afpfs-ng/lib/dsi.c:44-46 | two queued requests share an id exactly when a multiple of 65536 sends lies between them |
| `DsiRuns.YoungIdsDiffer` | afpfs-ng/lib/dsi.c:44-46 | with the oldest request fewer than 65536 sends old, all queued ids are distinct |
| `DsiRuns.OwnReplyOverRuns` | afpfs-ng/lib/dsi.c:180-336 | over any packet-wise run in which no request grows 65536 sends old, a request that is done has had exactly one reply to its own id since it was sent and holds that reply's code and, if a read, its body; one that is not done has had none |
| `DsiRuns.AnsweredWithCode` | afpfs-ng/lib/dsi.c:703 | the code of an answered request is the one its reply was written with |
| `DsiRuns.RequestIsAnswered` | afpfs-ng/lib/dsi.c:38-54 | a request that is sent gets the next id of 65536, and a reply written with that id completes exactly this request, with its code and, for a read, its body |
| `DsiRuns.UnmatchedReply` | afpfs-ng/lib/dsi.c:696-702 | exactly which replies to no request leave the session untouched but for the byte count |
| `DsiSessions.RecvKeepsQueue` | afpfs-ng/lib/dsi.c:661-902 | one receive call, on any bytes and in any state, keeps what every step keeps, unless it is handed an unknown command reply that is not marked as one |
| `DsiSessions.SessionKeepsQueue` | afpfs-ng/lib/dsi.c:137-902 | so does any session of receive calls, sends and leaving senders, in any order, with the same exception |
| `DsiSessions.SendCommutes` | afpfs-ng/lib/dsi.c:200-222 | a request that is queued while a packet is half in leaves that packet as it would have been otherwise, unless it takes the packet's id |
| `DsiSessions.LeaveCommutes` | afpfs-ng/lib/dsi.c:309-336 | so does a sender that leaves, unless it is the one whose read is being filled |
| `DsiSessions.SessionAsExpected` | afpfs-ng/lib/dsi.c:180-902 | a session in which no such sender leaves is at every moment the packet-wise run of the packets that are complete, with the bytes of one packet on top, and no call returns an error |
| `DsiSessions.OwnReplies` | afpfs-ng/lib/dsi.c:180-902 | at every such moment each request, but for the one whose reply is coming in, has its own answer |
| `DsiSessions.AbandonedRead` | afpfs-ng/lib/dsi.c:692-790 | when the sender of a read leaves inside the body, the rest of the packet stays in the buffer behind its header, shorter than the packet, and dsi_recv reports nothing |
| `DsiSessions.NextPacketSwallowed` | afpfs-ng/lib/dsi.c:767-789 | after the end of such a packet the bytes that come next are taken for the ones it lacks |
| `DsiSessions.AfterAbandoning` | afpfs-ng/lib/dsi.c:692-790 | from then on a session is stuck in that packet, whatever else happens, and passes its end with bytes in the buffer |
| `DsiSessions.DeframingHoldsIff` | afpfs-ng/lib/dsi.c:180-902 | for whole sessions with senders coming and leaving at any time, and replies of any length: the buffer is empty at every packet boundary and every request has its own reply's code and body, if and only if no sender leaves while the body of the reply to its read is partly in |
| `Dsi.BodyBounds` | afpfs-ng/lib/dsi.c:705-786 | a read of body bytes has room for them if they go to the request of a read; in the packet buffer exactly if they end within it |
| `DsiSessions.ArrivalBounds` | afpfs-ng/lib/dsi.c:774-786 | in a session a body that is not too long never leaves the packet buffer, and the last bytes of one that is always do |
| `DsiSessions.TooLongOverruns` | afpfs-ng/lib/dsi.c:774-786 | a packet longer than the packet buffer that goes there, its request gone or no read, has been written past the end by the time it is complete, whoever comes and leaves meanwhile |
| `DsiSessions.FramingHoldsIff` | afpfs-ng/lib/dsi.c:180-902 | for all those sessions: nothing is written past the packet buffer, it is empty at every packet boundary, and every request has its own reply's code and body, if and only if no sender leaves while the body of the reply to its read is partly in and no body comes in of a packet longer than the buffer whose request is gone or no read |
| `DsiSessions.LateReplyOverruns` | afpfs-ng/lib/dsi.c:774-786 | any reply longer than the packet buffer to a read whose sender left when only the header was in is written past the end |
| `DsiSessions.TimeoutInsideRead` | afpfs-ng/lib/dsi.c:309-336 | a read of two bytes whose sender leaves between them |
| `DsiSessions.TimeoutIsLegal` | afpfs-ng/lib/dsi.c:309-336 | that session is one of those FramingHoldsIff is about |
| `DidCache.WalkIsDescent` | afpfs-ng/lib/did.c:170-264 | the plain walk of a path is the descent from the root, component by component, stopping at the first that is no directory |
| `DidCache.WalkUnique` | afpfs-ng/lib/did.c:170-264 | two paths that walk to the same directory are the same path |
| `DidCache.FreshDidMeaning` | afpfs-ng/lib/did.c:122-165 | the lookup's answer is 0 exactly when no unexpired entry of the name holds an ID, and otherwise the ID of such an entry |
| `DidCache.GoodForTenSeconds` | afpfs-ng/lib/did.c:134 | an entry is found up to ten seconds after it was made, and no longer |
| `DidCache.SweptIsSlice` | afpfs-ng/lib/did.c:133-158 | the list after a lookup is a contiguous piece of the list before |
| `DidCache.SweptKeepsFresh` | afpfs-ng/lib/did.c:133-158 | a lookup loses no unexpired entry, except exactly when none has the name and the first entry is the only unexpired one with others behind it |
| `DidCache.SliceKeeps` | afpfs-ng/lib/did.c:133-158 | dropping entries at the ends keeps order, one ID for each name and coherence, also later |
| `DidCache.RemoveFirstKeeps` | afpfs-ng/lib/did.c:47-69 | taking out the first entry of a name leaves no ID for that name and keeps everything else true |
| `DidCache.WalkSurvivesAdd` | afpfs-ng/lib/midlevel.c:590-643 | a new node changes no walk that succeeded |
| `DidCache.WalkSurvivesDelete` | afpfs-ng/lib/midlevel.c:867-921 | deleting a file or an empty directory changes no walk but the one to it |
| `DidCache.ReachedHasPath` | afpfs-ng/lib/did.c:170-264 | where a walk stops there is a directory with a path |
| `DidCache.ReachedStops` | afpfs-ng/lib/did.c:240-258 | a walk that has met a component that is no directory stays where it is, whatever follows |
| `Resolution.SearchingKeeps` | afpfs-ng/lib/did.c:203-226 | the backward search, over any readings of the clock: order and coherence stay, what it starts from is what the plain walk gives, and everything longer on the path has been missed |
| `Resolution.ForwardNames` | afpfs-ng/lib/did.c:234-255 | the forward loop adds entries for longer and longer beginnings of the path |
| `Resolution.NoneWalks` | afpfs-ng/lib/did.c:240-258 | behind a beginning of the path that is no directory, no entry it adds is right |
| `Resolution.ForwardMeaning` | afpfs-ng/lib/did.c:228-260 | from any directory on the path and with anything in fi: the forward loop ends where the plain walk stops, with right entries only, exactly if nothing is missing on the way, or it starts right in front of what is missing and fi held no directory; otherwise it leaves an entry for a path that does not exist |
| `Resolution.LocatedOk` | afpfs-ng/lib/did.c:170-264 | get_dirid keeps the list newest first, without entries from the future and with one ID for each name, whatever it finds |
| `Resolution.LocatedMeaning` | afpfs-ng/lib/did.c:170-264 | for any coherent cache, any clock and anything in fi: get_dirid leaves the cache coherent exactly under that condition, and then answers the directory where the plain walk stops |
| `Resolution.GetDiridRightIff` | afpfs-ng/lib/did.c:170-264 | whatever coherent cache and whatever fi it meets, it leaves the cache coherent and answers that directory, if and only if nothing on the path of the parent is missing |
| `Resolution.MissingComponentIsCached` | afpfs-ng/lib/proto_files.c:290-294 | a missing component, cached under the ID of the directory before it, whatever fi held; a directory made there later is hidden |
| `Resolution.MissingComponentIsSkipped` | afpfs-ng/lib/did.c:245-257 | a missing component, skipped: the call ends in another directory than the walk |
| `Calls.DeletedPathMeaning` | afpfs-ng/lib/midlevel.c:885-889 | which directory an rmdir deletes that follows the plain walk: its own path is the one asked for exactly when the parent exists, and it is gone afterwards |
| `Calls.RmdirCoherentForCache` | afpfs-ng/lib/midlevel.c:885-917 | for the cache get_dirid leaves, with what it added: after the removal it is coherent exactly when no unexpired entry of the deleted directory's own path is left in it, which is sure when the parent exists |
| `Calls.CalledOk` | afpfs-ng/lib/midlevel.c:269-921 | every call keeps the list in order, whatever it is asked for and whatever is missing |
| `Calls.CalledMeaning` | afpfs-ng/lib/midlevel.c:269-921 | one call with a coherent cache: get_dirid leaves it coherent exactly if it resolves; then the tree and the answer are those of a client that walks from the root, and the cache is coherent afterwards exactly if no entry of a deleted directory is left |
| `Calls.CreationEffect` | afpfs-ng/lib/midlevel.c:612-640 | when a creation gets 0, in terms of the tree alone, and what it gets otherwise; with 0 there is a new directory with the server's ID, or a new file, and every other node is as before; with any other answer nothing changes |
| `Calls.DeletionEffect` | afpfs-ng/lib/midlevel.c:552-583 | when a deletion is refused and with what, the nine codes by number; otherwise exactly that node is gone; done is never said when the server refused with one of the nine |
| `Calls.MkdirMakesDirectory` | afpfs-ng/lib/midlevel.c:612-640 | after a successful mkdir below a parent that is there, the path walks to the ID the server gave, and did not walk before |
| `Calls.CreatMakesFile` | afpfs-ng/lib/midlevel.c:293-322 | after a successful creat the name is a file, and every other node is as before |
| `Calls.DeletionTakesNode` | afpfs-ng/lib/midlevel.c:885-917 | a deletion that was carried out took the node of that name, a file for unlink and an empty directory for rmdir, and no other |
| `Calls.RunOk` | afpfs-ng/lib/midlevel.c:269-921 | after any run the list is in order |
| `Calls.RunRightIff` | afpfs-ng/lib/midlevel.c:269-921 | any run: the cache has been coherent right after every get_dirid and every call so far if and only if every call has resolved and no rmdir has left an entry of what it deleted; as long as it has, the tree and every answer are those of the client that walks, also for the call that spoils it |
| `Calls.CallSafeIff` | afpfs-ng/lib/midlevel.c:269-921 | the calls that keep every coherent cache coherent, for any fi and any clock, are exactly those with nothing missing on the way to the parent and, for an rmdir that deletes something, with the parent there |
| `Calls.WellAimedKeeps` | afpfs-ng/lib/midlevel.c:269-921 | such a call, on any coherent cache |
| `Calls.WellAimedRun` | afpfs-ng/lib/midlevel.c:269-921 | a sequence of such calls, judged on the trees of the client that walks: however it runs, the cache is coherent all along and the tree and the answers are that client's |
| `Calls.RmdirBelowFile` | afpfs-ng/lib/midlevel.c:885-917 | a tree, a cache and a path below a file for which rmdir leaves the deleted directory in the cache |
| `Volumes.Volume.ScanList` | afpfs-ng/lib/did.c:133-158 | the in-place loop over the list returns the specified ID and leaves the specified list |
| `Volumes.Volume.FindByFullname` | afpfs-ng/lib/did.c:122-165 | the lookup with its clock: never an expired entry, and with a coherent cache the ID the walk gives |
| `Volumes.Volume.AddEntry` | afpfs-ng/lib/did.c:71-98 | a new first entry stamped with the time; the list stays in order when the name had no ID, and coherent when the ID is the walk's |
| `Volumes.Volume.RemoveEntry` | afpfs-ng/lib/did.c:47-69 | the list without the first entry of that name; no ID for it is left |
| `Volumes.Volume.DeepestCached` | afpfs-ng/lib/did.c:213-226 | the loop over the shorter and shorter beginnings of the path is the backward search, with one reading of the clock for each lookup |
| `Volumes.Volume.WalkForward` | afpfs-ng/lib/did.c:228-260 | the loop ends where the forward loop on values ends, and puts exactly its entries in front of the list; a failed lookup leaves fi as it was |
| `Volumes.Volume.GetDirid` | afpfs-ng/lib/did.c:170-264 | for every cache: the list, the directory ID and the basename are those of the backward search and the forward loop, fi starting with anything; a coherent cache stays coherent exactly if the path resolves, and then the ID is that of the directory where the plain walk stops; -1 without a slash |
| `Volumes.Volume.MlMkdir` | afpfs-ng/lib/midlevel.c:590-643 | a call by the specification above: a new directory under the ID get_dirid gave, exactly when the server agrees |
| `Volumes.Volume.MlCreat` | afpfs-ng/lib/midlevel.c:269-322 | the same for a file |
| `Volumes.Volume.MlUnlink` | afpfs-ng/lib/midlevel.c:534-585 | the same for a deletion: directories are refused, errors reported |
| `Volumes.Volume.MlRmdir` | afpfs-ng/lib/midlevel.c:867-921 | the same for a directory: anything else is refused, and after a success the first entry of the path asked for is taken out of the cache |
| `Volumes.Volume.Step` | afpfs-ng/lib/midlevel.c:269-921 | one call: the list stays in order; with a coherent cache, get_dirid leaves it coherent exactly if it resolves, then tree and answer are those of the client that walks and the cache is coherent exactly if nothing stale is left; a well-aimed call is right in any case |
| `Volumes.Volume.Run` | afpfs-ng/lib/did.c:47-264 | any sequence of calls and clock ticks is a run of such calls: the list is in order throughout, the cache has been coherent so far exactly if every call resolved and left nothing stale, and while it has, the tree and every answer are those of the client that walks |
| `Unicode.DeltaHalves` | afpfs-ng/lib/unicode.c:1050-1052 | each step is half of what is left, rounded up, and what is left is at least twice the step less one |
| `Unicode.DeltasSum` | afpfs-ng/lib/unicode.c:1050-1052 | for a table of any size the steps from j on sum to what is left at j, and all of them to the size |
| `Unicode.DeltasExist` | afpfs-ng/lib/unicode.c:1050-1052 | steps for a table of any size |
| `Unicode.CodeDeltas` | afpfs-ng/lib/unicode.c:1050-1052 | the array in the code is the one for 997 rows |
| `Unicode.UCS2Precompose` | afpfs-ng/lib/unicode.c:1065-1087 | for a sorted table of any size with its steps: every probe is in the table, and the result is the composition exactly when the pair is in it, else -1 |
| `Unicode.ComposeByRows` | afpfs-ng/lib/unicode.c:1065-1087 | two characters have the composition of the row whose pattern holds the first above the second, and none exactly without such a row |
| `Unicode.MbCharLen` | afpfs-ng/lib/unicode.c:1188-1211 | the length of a character by its leading one bits, counted bit by bit |
| `Unicode.LengthByLeadingOnes` | afpfs-ng/lib/unicode.c:1188-1211 | each length is exactly the bit pattern of that many ones and a zero |
| `Unicode.MbStrLen` | afpfs-ng/lib/unicode.c:1221-1233 | the number of units the conversion will write |
| `Unicode.UTF8toUCS2` | afpfs-ng/lib/unicode.c:1250-1313 | the decoded units and a terminator fill the allocation exactly, for every string whose last character is not cut |
| `Unicode.DecodeFourBytes` | afpfs-ng/lib/unicode.c:1289 | every four-byte character of section 4 of RFC 3629 becomes one tilde, and decoding goes on right behind it |
| `Unicode.DecodeThreeBytes` | afpfs-ng/lib/unicode.c:1285-1287 | three bytes with a three-byte lead are the character exactly when the others are tails and it needs three bytes, and an asterisk otherwise |
| `Unicode.DecodeTwoBytes` | afpfs-ng/lib/unicode.c:1281-1283 | two bytes with a two-byte lead, in the same way |
| `Unicode.DecodeOneByte` | afpfs-ng/lib/unicode.c:1278-1279 | one byte is itself; a tail that follows no lead ends the string |
| `Unicode.LettersBehindEmoji` | afpfs-ng/lib/unicode.c:1274-1292 | an emoji and two letters, byte by byte |
| `Unicode.UCS2toUTF8` | afpfs-ng/lib/unicode.c:1321-1359 | the encoding and a terminator, within the worst-case allocation |
| `Unicode.Encode` | afpfs-ng/lib/unicode.c:1328-1356 | between one and three bytes for each unit |
| `Unicode.Str16Len` | afpfs-ng/lib/unicode.c:1102-1109 | the number of units before the terminator |
| `Unicode.OneInverse` | afpfs-ng/lib/unicode.c:1274-1292 | one encoded unit is read back whole, whatever follows |
| `Unicode.OneEncoded` | afpfs-ng/lib/unicode.c:1328-1356 | the bytes of one unit, by its value |
| `Unicode.DecodeOfEncode` | afpfs-ng/lib/unicode.c:1250-1359 | decoding an encoding gives the units back, for every sequence of nonzero units |
| `Unicode.EncodeOfDecodeIff` | afpfs-ng/lib/unicode.c:1250-1359 | encoding a decoding gives the bytes back exactly when they are in shortest form |
| `Unicode.WellFormedIsShortest` | afpfs-ng/lib/unicode.c:1281-1287 | one-, two- and three-byte strings well formed by sections 3 and 4 of RFC 3629 are in shortest form |
| `Unicode.EncodeOfDecode` | afpfs-ng/lib/unicode.c:1250-1359 | so they survive |
| `Codepage.FoldFromNormal` | afpfs-ng/lib/codepage.c:103-127 | the fold leaves no composable adjacent pair, from any held character |
| `Codepage.FoldNormal` | afpfs-ng/lib/codepage.c:103-127 | nor does the whole fold |
| `Codepage.FoldFixedIff` | afpfs-ng/lib/codepage.c:103-127 | the fold changes nothing exactly when there is no composable pair, so a second pass is the identity |
| `Codepage.Fold` | afpfs-ng/lib/codepage.c:103-127 | never longer than its input |
| `Codepage.FoldIsGreedySplitting` | afpfs-ng/lib/codepage.c:103-127 | an output is the fold's exactly when the input splits into nonempty blocks, each composing to its output unit and none composing with the next block's first unit |
| `Codepage.GreedyBlocksAreFold` | afpfs-ng/lib/codepage.c:103-127 | such a splitting determines the output |
| `Codepage.DecomposeIsExpand` | afpfs-ng/lib/codepage.c:157-175 | on shortest-form strings the byte replacement is the expansion of U+00E4 by units |
| `Codepage.DecomposedBytes` | afpfs-ng/lib/codepage.c:157-175 | C3 A4 becomes 61 CC 88, any other byte stays |
| `Codepage.FoldUndoesExpand` | afpfs-ng/lib/codepage.c:103-175 | the fold undoes the expansion exactly on units without a composable pair |
| `Codepage.PathRoundTripIff` | afpfs-ng/lib/codepage.c:33-175 | for every well-formed BMP string, to the server's form and back gives it unchanged exactly when it has no composable pair |
| `CodepageBuffers.ComposeUnits` | afpfs-ng/lib/codepage.c:103-127 | the loop over the two unit buffers writes the fold and a terminator |
| `CodepageBuffers.ConvertUtf8DecToUtf8Pre` | afpfs-ng/lib/codepage.c:91-145 | the destination holds the precomposed string, and no byte behind it changes |
| `CodepageBuffers.ConvertUtf8PreToUtf8Dec` | afpfs-ng/lib/codepage.c:157-175 | the destination holds the decomposed bytes, their number is returned, and nothing behind them changes |
| `CodepageBuffers.ConvertPathToUnix` | afpfs-ng/lib/codepage.c:33-58 | by encoding: precomposed, copied, or refused with a cleared buffer |
| `CodepageBuffers.ConvertPathToAfp` | afpfs-ng/lib/codepage.c:60-80 | by encoding: decomposed, copied, or refused with a cleared buffer |
| `CodepageBuffers.ThereAndBack` | afpfs-ng/lib/codepage.c:33-80 | on the buffers: a name without composable pairs comes back byte for byte |
| `Transfer.SpliceTwice` | afpfs-ng/lib/lowlevel.c:647-684 | two adjacent writes are one write of both |
| `Transfer.SpliceAt` | afpfs-ng/lib/lowlevel.c:647-684 | the content after a write, byte by byte |
| `Transfer.RangeAt` | afpfs-ng/lib/lowlevel.c:350-360 | what a read can bring, byte by byte |
| `Transfer.AcceptedTilesSplice` | afpfs-ng/lib/lowlevel.c:647-684 | requests that tile the data and are all accepted make the file the splice |
| `Transfer.WriteIsSpliceIff` | afpfs-ng/lib/lowlevel.c:647-684 | the file becomes the splice, whatever it held, exactly when the server accepted every request |
| `Transfer.LlWrite` | afpfs-ng/lib/lowlevel.c:629-691 | the requests tile the range in order, without gap or overlap, full but for the last; 0 is returned in any case; the file is what the accepted ones make of it |
| `Transfer.LlRead` | afpfs-ng/lib/lowlevel.c:333-391 | a beginning of the range asked for, in its place in the buffer and at most the receive quantum; end of file only at the end; no other byte of the buffer changes; each refusal of the server, by its number, gives its own error |
| `Transfer.FuseRead` | afpfs-ng/daemon/fuse_int.c:243-272 | the whole range that exists, over any short answers, and nothing past the request |
| `Transfer.ReadBack` | afpfs-ng/lib/lowlevel.c:629-691 | the range of a splice is the data |
| `Transfer.WriteThenRead` | afpfs-ng/lib/lowlevel.c:333-691 | what was written and accepted is read back |
| `Readdir.EnumerateReply` | afpfs-ng/lib/proto_directory.c:273-331 | one reply's entries become a fresh proper list, in order |
| `Readdir.Append` | afpfs-ng/lib/lowlevel.c:463-464 | hanging one list behind another's last node gives the list of both |
| `Readdir.LlReaddir` | afpfs-ng/lib/lowlevel.c:443-506 | for every directory and any batch sizes the result is a proper list of the entries that could be had, in order: all of them exactly when the directory did not vanish before the last was delivered; no error unless the server sends one, and then the one for its code |
| `Readdir.PartialListing` | afpfs-ng/lib/lowlevel.c:472-475 | a directory that vanishes after one of its two entries: 0, and a list of one |
| `AfpUrl.EscapeString` | afpfs-ng/lib/afp_url.c:53-75 | every second of the characters is dropped |
| `AfpUrl.CollapseOfDouble` | afpfs-ng/lib/afp_url.c:53-75 | so doubling is undone |
| `AfpUrl.StrchrPassesDoubled` | afpfs-ng/lib/afp_url.c:123-141 | the search passes doubled characters and stops at the first single one |
| `AfpUrl.SearchReturnsIff` | afpfs-ng/lib/afp_url.c:103-121 | the search from the right never returns exactly when the last such character follows an equal one, and these two are not saved by a zero byte right before the string; otherwise it has its answer after two calls |
| `AfpUrl.PlaceInDouble` | afpfs-ng/lib/afp_url.c:273-284 | doubling a character makes no new occurrence of a word without it |
| `AfpUrl.PasswordOf` | afpfs-ng/lib/afp_url.c:258-271 | where a printed user part is cut for the password, and exactly when it never is |
| `AfpUrl.StrtolOfDigits` | afpfs-ng/lib/afp_url.c:22-31 | a printed port is read back |
| `AfpUrl.AfpUrl.ParseHost` | afpfs-ng/lib/afp_url.c:224-241 | server and port of a printed URL, or a rejection because of errno or of a port that is not from 1 to 32767 |
| `AfpUrl.AfpUrl.ParseUser` | afpfs-ng/lib/afp_url.c:258-293 | user, UAM and password of a printed URL, still doubled, or no return, or a rejection for a character outside space and A to z in the name of the UAM |
| `AfpUrl.AfpUrl.ParseVolume` | afpfs-ng/lib/afp_url.c:295-314 | volume and path of a printed URL |
| `AfpUrl.AfpUrl.ParseUrl` | afpfs-ng/lib/afp_url.c:143-319 | every part of every printed URL comes back; rejected exactly with a bad port, a port and errno set, or a UAM with a character outside space and A to z; hanging exactly on the confusing user parts, for either kind of byte before the parser's copy |
| `AfpUrl.OrdinaryIsParsed` | afpfs-ng/lib/afp_url.c:33-42 | with letters and spaces in the name of the UAM and a port from 1 to 32767 a printed URL is parsed, unless its user is confusing |
| `AfpUrl.PrintedWhole` | afpfs-ng/lib/afp_url.c:143-319 | the form of a printed URL with every part |
| `AfpUrl.ParsePlain` | afpfs-ng/lib/afp_url.c:143-319 | for every user, UAM, password, server and volume of ordinary letters, the URL as one writes it is taken apart into them, with port 548 |
| `AfpUrl.DoubleInside` | afpfs-ng/lib/afp_url.c:53-75 | a doubled character stands twice, the rest as it was |
| `Resource.ExtraTranslate` | afpfs-ng/lib/resource.c:19-88 | a virtual directory gives its directory, a virtual file gives its file and kind exactly when its name does not look virtual itself, and paths without .AppleDouble are real |
| `Resource.VirtualNames` | afpfs-ng/lib/resource.c:12-15 | the names of the virtual files, by their suffixes |
| `Resource.TranslateVirtual` | afpfs-ng/lib/resource.c:19-88 | each of them is translated to its own kind and file |
| `Resource.FileNameParts` | afpfs-ng/lib/resource.c:517-528 | where the name of a virtual file is cut |
| `Resource.SuffixesAreCut` | afpfs-ng/lib/resource.c:64-82 | the suffixes that naming appends come off again |
| `ParamBlock.PackParms` | afpfs-ng/lib/proto_files.c:60-110 | the message holds the fields of the selected bits in bit order, the dates as seconds since 2000, and nothing before them changes |
| `ParamBlock.FieldInBlock` | afpfs-ng/lib/proto_files.c:60-110 | each packed field stands where the parser looks for it, whatever other bits are set |
| `ParamBlock.ParseReplyBlock` | afpfs-ng/lib/proto_replyblock.c:16-141 | every selected field is read from its own place for any bitmap, file or directory, the dates as seconds since 2000; everything else is zero |
| `ParamBlock.DateComesBack` | afpfs-ng/lib/afp_internal.h:9-11 | every 32-bit date survives the way there and back |
| `ParamBlock.DatesOnTheWire` | afpfs-ng/lib/afp_internal.h:9-11 | a date field n is the Unix time n + 946684800, and such a time is sent as n, in 32 bits |
| `ParamBlock.PackedBytes` | afpfs-ng/lib/proto_files.c:60-110 | the bytes of a block with everything that can be set |
| `ParamBlock.ParseFullFile` | afpfs-ng/lib/proto_replyblock.c:16-141 | a listing entry of a file with every bit set, each field by its byte positions |
| `ParamBlock.ParseShortFile` | afpfs-ng/lib/proto_replyblock.c:16-141 | one with the 32-bit fork lengths and the long name |
| `ParamBlock.ParseFullDirectory` | afpfs-ng/lib/proto_replyblock.c:16-141 | a listing entry of a directory with every bit set |
| `ParamBlock.Utf8NameWins` | afpfs-ng/lib/proto_replyblock.c:117-123 | a UTF-8 name that is not empty is the name, whatever the long name is |
| `ParamBlock.LongNameBytes` | afpfs-ng/lib/proto_replyblock.c:62-67 | the long name by the bytes at its offset |
| `ParamBlock.FullOffsets` | afpfs-ng/lib/proto_replyblock.c:30-137 | where each field stands in a block with all of them |
| `ParamBlock.HasIsBit` | afpfs-ng/include/afp_protocol.h:132-158 | bit k of a bitmap has the value 2 to the k |
| `ParamBlock.FieldsComeBack` | afpfs-ng/lib/proto_files.c:60-110 | each packed field, taken apart, is the field; the attributes keep only their high byte |
| `ParamBlock.PackThenParse` | afpfs-ng/lib/proto_replyblock.c:16-141 | for every set of settable bits the parsed block holds the packed dates, Finder information and privileges; the attributes exactly when their low byte is zero |
| `Bytes.FromBEOfToBE` | afpfs-ng/lib/proto_files.c:97-100 | a number in network order is read back |
| `Bytes.BigEndian` | afpfs-ng/lib/proto_files.c:97-100 | the bytes of a 16-bit and a 32-bit number, the highest first |
| `Unmounting.Client.SomethingIsMounted` | afpfs-ng/lib/afp.c:264-274 | whether some volume is not yet unmounted |
| `Unmounting.Client.AfpServerRemove` | afpfs-ng/lib/afp.c:367-400 | the server leaves the list and is freed, the others stay in order; -1 and no change when it is not in the list |
| `Unmounting.OthersOfSplit` | afpfs-ng/lib/afp.c:380-392 | the list without one server is what stands before and behind it |
| `Unmounting.Client.AfpUnmountVolume` | afpfs-ng/lib/afp.c:290-332 | the volume is unmounted; the server goes exactly with its last volume; nothing happens for a volume not mounted or half-way, also when asked from inside an unmount; no field of a freed server or of its volumes is read or written |
| `Unmounting.Client.AfpUnmountAllVolumes` | afpfs-ng/lib/afp.c:276-287 | every mounted volume is unmounted, the server goes exactly when one was mounted and none is half-way, and is not touched afterwards |

## Left out

Weaker than the original on purpose:

- Dsi.DeframingIndependentOfChunking: the queue is left alone during the stream; `DsiSessions.FramingHoldsIff` is about sessions where it is not. The stream consists of replies that fit where they go, and a read brings no byte from behind a packet that does not go to a read; otherwise the branch of `Dsi.OverreadIff` is taken, and what `dsi_recv` does next follows no frame.
- Dsi.EveryReplyReachesItsRequest: packets the server sends of its own accord (tickle, attention, close session) are left out, like what the reply handlers compute; a log of the packets handed to them stands for them.
- DsiRuns.OwnReplyOverRuns: these runs take a reply as one event; `DsiSessions.SessionAsExpected` shows which byte-wise sessions they stand for.
- DsiRuns.StepKeepsQueue: the same; `DsiSessions.RecvKeepsQueue` is the byte-wise step.
- DsiRuns.RunKeepsQueue: the same; `DsiSessions.SessionKeepsQueue` is about any session.
- DsiSessions.FramingHoldsIff: as for the streams, packets are replies, and a read brings no byte from behind a packet. A reply to a read that still waits is the first one to it and no longer than was asked for; replies to requests that are gone may be anything. No request takes the id of a packet whose body is coming in, which a server that answers only what was sent cannot bring about. A sender's step is atomic against `dsi_recv`.
- DsiSessions.RecvKeepsQueue: for a packet that is not marked as a reply, with the command of a reply to a command or a write and an id that no request has, the code dereferences a null request; here nothing happens.
- DsiSessions.SessionKeepsQueue: the same packet is the exception.
- DsiServers.DsiServer.Receive: socket errors and states where the bytes that are there would overrun the packet buffer are left out. Receive buffers are values inside the requests, so two requests that share one buffer are not captured; the branch that shifts bytes left behind a completed read is not reached, because nothing is read past a header.
- DsiServers.DsiServer.Send: setting up the header and queueing the request are one step, so another thread's step in between is not captured; the write to the socket and reconnecting after it fails are left out.
- DsiServers.DsiServer.LeaveQueue: waiting is one step that ends with the wake-up or the timeout. The request of a sender that does not wait may be freed by `dsi_recv` before the sender reads its code; the code is then any number.
- DsiServers.DsiServer.DropPacket: the overlapping copy is a move, as on common machines.
- Volumes.Volume.GetDirid: the 768-byte path buffers are unbounded; an absolute path or a single name is asked for, as all callers do, so a relative path with a slash is not modelled, and an empty component is looked up like any other name. A lookup on the server fails only for a name that is not there.
- Volumes.Volume.Run: this client alone changes the tree; rename and the appledouble variants of the calls are left out, and the statistics counters are not modelled.
- Volumes.Volume.MlMkdir: the checks for read-only volumes and overlong names, which return before anything happens, are left out, and error codes are the server's, not errno's.
- Volumes.Volume.MlCreat: the same, and the setting of privileges on the new file.
- Volumes.Volume.MlUnlink: the same early returns and codes are left out.
- Volumes.Volume.MlRmdir: the same early returns and codes are left out.
- Volumes.Volume.Step: only these calls; rename and the appledouble variants are left out.
- Unicode.UCS2Precompose: the 997 rows are not repeated; the table is any sorted sequence, and what the fold needs of it (no composition or letter a is ever the second of a pair, for the round trip the row of U+00E4) is a precondition.
- Unicode.UTF8toUCS2: a string whose last character is cut short by the terminator is outside, because the code then reads past the end; a little-endian machine is assumed.
- CodepageBuffers.ThereAndBack: names that fit the fixed buffers, which the code does not check.
- Transfer.LlRead: replies have the codes `ll_read` names and are no longer than the receive quantum; the two calls for AFP 2 and AFP 3 are one.
- Transfer.LlWrite: the transmit quantum is positive, as the code needs to make progress.
- Readdir.EnumerateReply: of an entry only the name is kept; how a reply's parameters are read is `ParamBlock.ParseReplyBlock`.
- Readdir.LlReaddir: only codes that `ll_readdir` names (another one would make it ask forever), only the 32-bit start index of AFP 3, and no conversion of the names afterwards.
- AfpUrl.AfpUrl.ParseUrl: the fixed buffers are unbounded; for URLs that were not printed only termination and the in-bounds cutting are proved; the byte before the parser's copy of the first part is a parameter; a copied part that holds a percent sign, which the code uses as a format, becomes any string.
- Resource.ExtraTranslate: a path that ends in the word .AppleDouble without a slash before it is read past its end by the code, and the result is any string.
- ParamBlock.ParseReplyBlock: the block is whole, including the names its offsets point at; the code checks no bounds.
- ParamBlock.PackThenParse: bits without a field in the packed block (everything but attributes, dates, Finder information and privileges) are excluded, since the parser would expect a field for them.
- Unmounting.Client.AfpUnmountVolume: closing the volume, the caches and forks freed, the logout and the waking of waiting requests have no part in the model.

Not modelled at all:

- sockets, select loops, threads, locks, signals and logging
- login and the user authentication methods, which wrap a cryptographic library
- server identification, mapping names, status text, errno tables
- the reconnect path, where a server that is already listed is added again
- rename, chmod, chown, links and the other calls of the middle layer
- resource forks, comments and Finder information behind the virtual files
- the command line, the daemon's own protocol and the older fuse directory
