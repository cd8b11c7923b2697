# FSP in Dafny

A model of the core of FSP, the UDP file service, with its properties proved.  Each module follows
one part of the C sources; the procedures keep the source's own form (objects whose methods change
their fields, arrays rewritten in place, loops with invariants) and are tied by their contracts to
functions, about which the lemmas speak.

| module | part of the program |
|---|---|
| `Session`, `Duplicates`, `Execution`, `KeyLockstep`, `Flood` | the two keys per host, the key filter, and one client with one server over a network that loses, duplicates, reorders and damages packets |
| `ClientInteract` | the client's resending loop, the choice of the reply, the delays |
| `FindPlan`, `FindGrammar`, `FindAccepts`, `FindFails` | the compiler of `find` expressions, its grammar, its evaluators and its failures |
| `DirListing` | the directory listing: building, paging, reading back |
| `AbsPath` | the client's path normaliser |
| `Glob`, `GlobMeaning` | the wildcard and brace matcher and the meaning of patterns |
| `Upload`, `UploadRun` | chunked uploads into a temporary file with a cached handle, and a whole upload over the network |
| `Download` | the client's download loop and the server's blocks |
| `FifoCache`, `FifoCacheRuns` | the generic FIFO cache and its promises over runs |
| `Coherence` | which changes of a directory a cached listing shows |
| `HostTable` | the sorted table of hosts |
| `Throughput` | the ten-second throughput limit |
| `IpRange`, `IpGrammar` | the address table: parser, printer and lookup, and what a line looks like |

`Options` holds the datatype of values that may be missing.  `dafny verify dfyconfig.toml` checks the whole project.

## What the code does that its documentation or comments do not say

Where code and stated intent differ the model follows the code, and a lemma says exactly when they
agree.

- Protection from late duplicates needs packets that die within the session timeout
  (`Duplicates.AtMostOnce`), and a goodbye ends it for the requests before it, unless the client pauses
  for the life of a packet first (`Duplicates.AtMostOnceAcrossGoodbyes`).
- A damaged packet can have its key adopted: `KeyLockstep.DamageBreaksLockstep` says which ones part the
  client from the server.  After a goodbye it makes the record active again, so that a client that
  starts anew can be refused (`KeyLockstep.RestartBreaksLockstep`).
- A client whose first key is zero can be answered without its request being executed, because a
  new host record holds zero as its last key (`Execution.ExactlyOnce`).
- An error reply carries position zero and the client drops it when it asked for another position;
  the resend that follows is reported as stored (`ClientInteract.UploadFailureHeard`,
  `ClientInteract.ResendsReportStored`).
- A `!` inside a parenthesis that is itself negated is left unfinished by `not_squish`, and the next
  pass follows an uninitialised pointer (`FindAccepts.AcceptsExactly`); the two checks for a missing
  operand come after the pointer has been followed, and are modelled as the crash they are.
- The listing builder checks the room for an entry without its padding; its unsigned counter stays
  in range exactly for block sizes that are multiples of four (`DirListing.PaddingAlwaysFits`).
- A chunk that fails on a handle just opened leaves that handle in the cache, and the next chunk, even
  of a whole new upload, is then stored in front of old bytes (`Upload.FailedRewriteHidesBytes`,
  `Upload.FaithfulWhen`).
- A download of a file longer than the positions go can be reported as a success and be incomplete
  (`Download.SuccessIsTrueWhen`).
- A file longer than four gigabytes is sent but never installed, and no error is reported
  (`Upload.RequestsTile`).
- A change made in the second in which a listing was built, and a directory made or removed, may not
  be shown (`Coherence.ShownWhen`, `Coherence.HiddenUntilDropped`, `Coherence.UnnotedIsShownWhen`).
- Looking up one of the two sentinel addresses breaks the order of the host table
  (`HostTable.KeptWellFormed`).
- A refused packet is never sent, because the waiting loop does not refresh the time
  (`Throughput.RefusalIsFinal`).
- A number in an address is refused for its size only up to 19 digits; longer ones can wrap
  (`IpRange.NumberIsCheckedWhen`).
- A class range whose ends are not in order still takes its two ends, so it is never the interval it
  writes (`GlobMeaning.RangeNeedsOrder`).

## Model

| member | source | states |
|---|---|---|
| Session.HostEntry.constructor | server/host.c:88-90 | a new host record has zero keys and no session |
| Session.HostEntry.KeyFilter | server/server.c:269-293 | the key filter changes the record and judges the packet as `Filter` says, before any checksum |
| Session.HostEntry.Receive | server/server.c:266-307 | one packet through filter, checksum, key rotation and goodbye; the reply carries the key expected next |
| Session.Arrival | server/server.c:270-293 | in a consistent state a delivered request is refused and changes nothing, or is a resend of the request answered last, or is the client's current request, or is the goodbye answered last |
| Session.InvStep | server/server.c:266-305 | every step of client, server, network and damage keeps the key and sequence invariant, goodbyes included if the client pauses before them |
| Session.InvRun | server/server.c:266-305 | so does every run |
| Duplicates.AtMostOnce | server/server.c:266-293 | in every run without goodbyes no request is dispatched as new twice, if and only if no packet outlives the session timeout |
| Duplicates.AtMostOnceAcrossGoodbyes | server/server.c:542-545 | in every run, with goodbyes anywhere, no other request is dispatched as new twice, if and only if no packet outlives the session timeout or the client's pause before a goodbye |
| Duplicates.LateDuplicateRuns | server/server.c:271-286 | with a late goodbye or a long silence there is a run in which the first request is dispatched again |
| Duplicates.GoodbyeForgets | server/server.c:542-545 | for every pause shorter than the life of a packet there is a run with that pause in which a goodbye lets an answered request be dispatched again |
| Execution.ExactRun | server/server.c:520-525 | in every run in which the client pauses before its goodbyes, the dispatched requests are the answered ones other than goodbyes, each once, in the client's order |
| Execution.ExactlyOnce | server/server.c:520-525 | in every such run every answered request other than a goodbye was executed exactly once and in order, if and only if the client's first key is not zero |
| Execution.ExactlyOnceAcrossGoodbyes | server/server.c:520-545 | from every first key but zero the same holds in every run, if and only if no packet outlives the session timeout or the client's pause before a goodbye |
| Execution.ZeroKeyLostRuns | server/server.c:274-279 | with a first key of zero a damaged packet leads to a request that is answered and not executed |
| Execution.AcceptedMeansExecuted | client/lib.c:189-223 | in every such run, when the client takes a reply, its current request, if not a goodbye, has been executed exactly once and last |
| KeyLockstep.DamageBreaksLockstep | server/server.c:270-305 | a damaged packet breaks the lockstep if and only if, in a session, it comes after the session timeout of silence with neither of the server's keys and the client is not just waiting for an answer of which no copy is alive, or, on a record without session, its key is neither of those the client has or will be given |
| KeyLockstep.RestartBreaksLockstep | server/server.c:270-286 | a client that starts anew breaks it if and only if the record is active with another next key |
| KeyLockstep.RestartCanPart | server/server.c:271-286 | which can happen: a goodbye, a damaged packet, and the new client's first request is refused |
| KeyLockstep.OthersKeepLockstep | server/server.c:270-293 | nothing else breaks it, goodbyes included |
| KeyLockstep.Lockstep | server/server.c:270-293 | in every run in which the client pauses before its goodbyes, damage or not: throughout, while a session is active the client holds the next or last key and all live copies of an answer it waits for carry the next key, if and only if no damaged packet and no restart disturbs it |
| KeyLockstep.CurrentRequestServed | server/server.c:270-293 | in every such run a packet of the current request is answered again from the retry timeout on if it was executed; if it was not answered it is executed if the client holds a key or the session was silent for its timeout, and else dropped; an answered goodbye is executed again unless damage made the record active with another key |
| KeyLockstep.OldDuplicatesRefused | server/server.c:280-284 | an answered and succeeded request is refused without a trace, with damage and across goodbyes with a pause |
| KeyLockstep.SilenceRecovers | server/server.c:281-286 | in every such run, after a silence of both timeouts the current request is served, as new if and only if it was not executed, an answered goodbye in either way |
| Flood.Passing | server/server.c:270-293 | a packet without the expected key passes an active session only a gap after the last accepted one |
| Flood.IntrusionsSpaced | server/server.c:270-293 | the number of such packets times the gap fits in the time since the last accepted packet |
| Flood.FloodBound | server/server.c:270-293 | in any window of T seconds at most 1 + T / min(retry, session timeout) such packets pass |
| ClientInteract.SequenceNamesRequest | client/lib.c:82-83 | the masked sequence check accepts echoes of any resend of the same request and of no other |
| ClientInteract.NextSeqDiffers | client/lib.c:72-77 | consecutive requests never share a sequence number, and its low bits stay free |
| ClientInteract.Client.constructor | client/lib.c:72-77 | the first sequence number is the random number without its low three bits, and both delays are the usual one |
| ClientInteract.Client.Backoff | client/lib.c:89-144 | the first wait is the usual delay or 1340 more than the last round trip, the second half as long again as that round trip, every later one a third longer up to the maximum; each is then kept within the limits |
| ClientInteract.Client.Listen | client/lib.c:153-214 | the reply is the first packet with a good sum, the sequence and the command of the request or that of an error, and, for the commands 0x41, 0x42, 0x43, 0x11 and 0x4B, its position; there is none only if no packet has all of these |
| ClientInteract.Client.Interact | client/lib.c:71-224 | the sequence number is the random one without its low bits, or the old one changed if that is the same; every transmission carries command, old key, sequence and position and counts the resends; the reply is one as above, nothing that came before it is, it gives the next key, and without one the key stays |
| ClientInteract.Client.SendUntilAnswered | client/lib.c:79-224 | the loop sends until the first packet that the client takes, in which transmission that is, and how long it waits |
| ClientInteract.WaitIs | client/lib.c:89-144 | the waits of a request one by one: which delay, and its limits |
| ClientInteract.WaitsGrow | client/lib.c:89-144 | every wait is within its limits, and from the first resend on waits never shrink |
| ClientInteract.OneExecution | server/server.c:687-698 | the first packet of a chunk's request to reach the server is answered with what came of it, every later one as stored or not at all |
| ClientInteract.ResendsReportStored | server/server.c:687-698 | a failed chunk is reported as stored if and only if, at position zero, the first answer to get through is one to a resend, or, elsewhere, any answer to a resend gets through |
| ClientInteract.UploadFailureHeard | client/lib.c:206-214 | whatever is lost, doubled or overtaken either way, the client hears of a failed chunk if and only if it is at position zero and the answer to the first packet that reached the server is the first to get through |
| ClientInteract.CurrentUploadIsReady | server/server.c:270-293 | in every run in which the client pauses before its goodbyes the server is ready for the client's current request if that was not executed, is no goodbye and the client holds a key |
| FindPlan.PlanList.YankNode | bsd_src/operator.c:48-56 | the first node leaves the list, or nothing does |
| FindPlan.PlanList.YankExpr | bsd_src/operator.c:64-110 | a plain node, or everything up to the matching parenthesis as one group, leaves the list |
| FindPlan.PlanList.YankOperand | bsd_src/operator.c:174-181 | a run of `!` is counted and leaves the list with the node behind it |
| FindPlan.ParenSquish | bsd_src/operator.c:116-147 | the loop computes the parenthesis pass, errors included |
| FindPlan.NotSquish | bsd_src/operator.c:153-203 | the loop computes the negation pass, errors included |
| FindPlan.OrSquish | bsd_src/operator.c:209-255 | the loop computes the alternation pass, errors included |
| FindPlan.CreateAll | bsd_src/find.c:61-68 | the loop makes the nodes of all arguments but `-a`, in their order, and notes whether an argument at any index makes output |
| FindPlan.FormPlan | bsd_src/find.c:57-80 | the plan is the three passes over these nodes, with a print at the end if and only if no argument makes output |
| FindPlan.Eval | bsd_src/function.c:555-616 | dispatch on the kind of node evaluates the node |
| FindPlan.FindExpr | bsd_src/function.c:555-562 | the loop runs a list up to the first false primary |
| FindPlan.FindNot | bsd_src/function.c:585-592 | the value is flipped, the primaries run are the same |
| FindPlan.FindOr | bsd_src/function.c:605-616 | the second list runs only if the first one is false |
| FindGrammar.ParenExpr | bsd_src/operator.c:116-147 | for every expression of the grammar the first pass groups exactly its parentheses |
| FindGrammar.NotExpr | bsd_src/operator.c:153-203 | the second pass turns a run of `!` into one or none by parity, except in negated groups, which it leaves alone |
| FindGrammar.OrExpr | bsd_src/operator.c:209-255 | the third pass splits at the first `-o` and nests to the right |
| FindGrammar.ScanOutside | bsd_src/operator.c:167-192 | a scan of the tokens finds exactly the negations that the second pass does not reach |
| FindGrammar.EvalExpr | bsd_src/function.c:555-616 | running the finished plan gives the value of the expression and the same primaries in the same order |
| FindGrammar.NegatedFlips | bsd_src/function.c:585-592 | one more `!` flips the value and leaves what runs alone |
| FindAccepts.CollectFlattens | bsd_src/operator.c:80-108 | what `yankexpr` collects, written out again, is what it consumed |
| FindAccepts.ParenFlattens | bsd_src/operator.c:116-147 | a list that the first pass accepts is its result written out again, and the result has no parenthesis |
| FindAccepts.OrNeedsNots | bsd_src/operator.c:224-225 | a list that the third pass accepts directly holds no `!` at any depth of groups |
| FindAccepts.Rebuild | bsd_src/operator.c:153-255 | from a list that the last two passes accept an expression of the grammar can be rebuilt |
| FindAccepts.CompilesTo | bsd_src/operator.c:116-255 | every expression without `!` in a negated group is compiled to its plan |
| FindAccepts.Decompile | bsd_src/operator.c:116-255 | every accepted token list is an expression without `!` in a negated group |
| FindAccepts.AcceptsExactly | bsd_src/operator.c:116-255 | the compiler accepts a token list if and only if it is in the grammar and has no `!` in a negated group |
| FindAccepts.CompilePreservesMeaning | bsd_src/operator.c:116-255 | an accepted expression and its plan have the same value and run the same primaries in the same order |
| FindAccepts.CompiledPlanIsClean | bsd_src/operator.c:80-253 | an accepted plan has no parenthesis, no bare operator and no empty list, and every primary once in its place |
| FindAccepts.DefaultPrintJoinsLast | bsd_src/find.c:70-77 | the default print becomes part of the last alternative only |
| FindAccepts.NodesUnique | bsd_src/find.c:61-68 | the arguments determine the list of nodes |
| FindAccepts.FormAndRun | bsd_src/find.c:57-80 | for arguments that write an expression, `-a` left out, the plan is refused or runs as the expression if any argument makes output, and else as the expression with a print in its last alternative; the plan holds the primaries of the arguments in order, and behind them one print if and only if none makes output |
| FindFails.CollectScans | bsd_src/operator.c:80-108 | collecting a group fails as one scan of the tokens with a count of open parentheses does |
| FindFails.ParenFails | bsd_src/operator.c:95-135 | the first pass exits with a message if and only if a parenthesis closes nothing or an empty group, and crashes if and only if there is none such and one is left open |
| FindFails.NotFails | bsd_src/operator.c:153-203 | the second pass fails if and only if the list has a fault, a `!` at the end or before `-o` or a fault in a group that is not negated, and then with the kind of the first one |
| FindFails.OrFails | bsd_src/operator.c:209-255 | the third pass fails if and only if the list has a fault, a bare `!`, an `-o` without left or right side or a fault inside a group or an operand, and then with the kind of the first one |
| DirListing.Read4Write4 | server/file.c:461-464 | a four-byte number is read back as written |
| DirListing.WireCarries | server/file.c:461-468 | the bytes written for an entry carry its time, size, type and name |
| DirListing.PaddingAlwaysFits | server/file.c:447-475 | for every directory, taking an entry and its padding off the room never underflows, if and only if the block size is a multiple of four |
| DirListing.MultiplesOfFourFit | server/file.c:447-475 | so in such blocks all entries that fit into a block can be laid out |
| DirListing.ListingNeedsRoom | server/file.c:447-475 | in blocks of any size a listing in the format exists only for entries whose layout does not underflow |
| DirListing.PutEntry | server/file.c:461-475 | an entry is written at its place, whatever the padding held, and place and room move by the padded length |
| DirListing.FlushBlock | server/file.c:448-459 | SKIP bytes fill the block and the listing goes on in the next one |
| DirListing.AddEntry | server/file.c:445-475 | an entry is added whole, in a new block if it does not fit |
| DirListing.AddEnd | server/file.c:479-495 | the END record closes the listing, in a new block if it does not fit |
| DirListing.BuildDirListing | server/file.c:399-497 | for blocks of any size and entries whose layout does not underflow, the bytes are, one by one, a listing in the documented format of the visible entries in the directory's order: where each record and the END record are, the big-endian time and size, kind, name and zero, and the filling between blocks |
| DirListing.LaidOut | doc/PROTOCOL:299-330 | in every listing each entry is at the next multiple of four, or at the start of the next block with a filling in between, and the END record ends it |
| DirListing.ListingLayout | server/file.c:433-497 | so every listing of a directory is laid out byte by byte as said |
| DirListing.ServeDir | server/server.c:564-585 | at every position: the block from there on at a multiple of the block size, nothing behind the end, and else an error |
| DirListing.ReplyAligned | server/server.c:564-585 | a request at a block boundary is answered with that block and leads to the next boundary or shows the end |
| DirListing.Fetch | client/util.c:168-189 | the client's buffer holds the next part of the listing, every block once and in order, and never overflows |
| DirListing.ReadName | client/util.c:227-227 | a name is read up to its zero |
| DirListing.ReadEntry | client/util.c:224-232 | an entry is read back with all its fields, and its padding passed whatever it holds |
| DirListing.ReadItem | client/util.c:216-223 | SKIP, END, the end of a block and an entry are told apart |
| DirListing.ReadBlock | client/util.c:191-233 | reading a block gives exactly its entries and says whether the listing ended |
| DirListing.MoveDown | client/util.c:240-241 | the rest of the buffer moves to its front |
| DirListing.DropBlock | client/util.c:240-241 | dropping a block leaves the buffer at the next one |
| DirListing.NextBlock | client/util.c:166-242 | one round reads one block; the listing ends or the next round starts at the next block |
| DirListing.GetDir | client/util.c:153-242 | the client's loop ends with exactly the entries of the listing, for any padding |
| DirListing.RoundTrip | server/file.c:433-495 | what the client reads are, in order, the files and directories that do not start with a dot, and `.` and `..`, each with its time modulo 2^32, its size up to 2^32 - 1, its kind and its name |
| DirListing.ListingUnique | doc/PROTOCOL:299-330 | bytes in the format list one sequence of entries only |
| DirListing.LastBlockShort | server/file.c:479-495 | in blocks of a multiple of four bytes the last block is strictly short, so the client's test for the end never fails |
| DirListing.NoEntryStraddles | server/file.c:447-459 | every entry with its padding lies inside one block |
| AbsPath.DoubleSlash | client/util.c:63-63 | dropping one of two slashes does not change what a path means |
| AbsPath.DropDot | client/util.c:99-104 | dropping `/.` does not change what a path means |
| AbsPath.DropUp | client/util.c:76-87 | dropping a name and the `..` after it does not change what a path means |
| AbsPath.DropRootUp | client/util.c:67-75 | dropping `..` at the root does not change what a path means |
| AbsPath.NoDotsPlain | client/util.c:61-107 | a string whose cursor has passed the end has no dot component |
| AbsPath.MoveDown | client/util.c:73-73 | the copying loop cuts a part out of the string in place |
| AbsPath.Collapse | client/util.c:63-63 | a run of slashes at the cursor becomes one, in place |
| AbsPath.UpStep | client/util.c:66-88 | the `..` branch keeps the meaning and shortens the string, ends with the finished path, or there was no `..` |
| AbsPath.DotStep | client/util.c:89-105 | the same for `.` |
| AbsPath.Normalise | client/util.c:61-109 | the loop ends, in place, with a rooted path whose components are the input's resolved with a stack, none of them a dot, without a slash at the end or a double one but at the front |
| AbsPath.UtilAbsPath | client/util.c:45-109 | the path is the argument if it starts with a slash and else taken from the directory, resolved as above |
| AbsPath.NormalIsStable | client/util.c:61-109 | a finished path resolves to its own components |
| Glob.PassOver | bsd_src/glob.c:311-312 | the brace scans pass over a class at once |
| Glob.FindClose | bsd_src/glob.c:302-314 | the first loop stops at the brace that closes the one in front |
| Glob.ExecBrc | bsd_src/glob.c:298-357 | trying every alternative before the rest of the pattern answers as `Match` says, and ends; unclosed braces and classes see below |
| Glob.InClass | bsd_src/glob.c:195-212 | the class loop answers as the class scan says and stops after the class; unclosed classes see below |
| Glob.AMatch | bsd_src/glob.c:181-230 | the matcher's loop answers as `Match` says, and ends |
| Glob.MatchFrom | bsd_src/glob.c:213-223 | the star tries what follows it at every place left |
| GlobMeaning.ScanItems | bsd_src/glob.c:195-212 | the class scan answers membership in the class's characters and ranges |
| GlobMeaning.RangeNeedsOrder | bsd_src/glob.c:203-205 | a class of one range has exactly the interval if and only if its ends are in order |
| GlobMeaning.ReversedRange | bsd_src/glob.c:203-205 | a class of one range with ends not in order has exactly these two characters |
| GlobMeaning.TryAlts | bsd_src/glob.c:315-350 | the alternatives are tried with the rest of the pattern, and one that fits is found if there is one |
| GlobMeaning.MatchBraces | bsd_src/glob.c:298-357 | a brace matches if and only if one of its alternatives put in its place does, nested braces and classes included |
| GlobMeaning.MatchStar | bsd_src/glob.c:213-223 | a star matches if and only if some end of the name fits what follows |
| GlobMeaning.DenotesBraces | bsd_src/glob.c:298-357 | choosing an alternative for each brace is the same as putting the first brace's alternatives in its place |
| GlobMeaning.MatchIsMeaning | bsd_src/glob.c:181-230 | for every name and every slash-free balanced pattern with ordered ranges the matcher says yes if and only if the name fits some brace expansion |
| Upload.Server.Evict | server/file.c:62-68 | a handle that leaves the cache leaves the file alone |
| Upload.Server.ServerUpLoad | server/file.c:799-889 | which chunk gets which reply; a chunk refused for a gap or its end leaves neither file nor handle, one whose file cannot be opened changes nothing; a chunk stored, or as much of it as there is room for, is put over the old bytes or, when started anew, over nothing; after a failed write the handle is gone if and only if it was found in the cache; the restart at position zero ends |
| Upload.RefusedUntilRestart | server/file.c:812-876 | once a chunk was refused for a gap or its end, every chunk at another position than zero is refused, and the next one at zero is stored in a new file |
| Upload.StoredWhen | server/file.c:827-876 | with room a chunk is stored if and only if it starts the file or neither leaves a gap after the believed end nor ends before it |
| Upload.StoredIsFaithful | server/file.c:877-889 | a stored chunk makes the file the old bytes before it and then the chunk, if and only if the handle hides nothing behind it; there is never a hole |
| Upload.FailedRewriteHidesBytes | server/file.c:884-888 | such a handle exists |
| Upload.AtEndStep | server/file.c:799-889 | the handle stays at the end of the file, except after a failed write through a handle just opened |
| Upload.UtilUpload | client/util.c:405-442 | the client's loop sends the requests of a file, one empty chunk for an empty one |
| Upload.RequestsTile | client/util.c:405-442 | the chunks tile the file, all but the last as long as the buffer; they reach the end of the file and are followed by the install request if and only if it is no longer than four gigabytes, and else stop at the first chunk that ends behind that |
| Upload.UploadFaithful | server/file.c:799-889 | if a cached handle stands at the end of its file, chunks in order, each any number of times, with evictions anywhere, are all stored and leave exactly the part of the source that has arrived |
| Upload.HarmShows | server/file.c:833-876 | with a handle that is not harmless an upload of one chunk leaves a wrong file, and a longer one fails when the handle is evicted after the first chunk |
| Upload.FaithfulWhen | server/file.c:799-889 | whatever file and handle are left over, every schedule of a whole upload stores all and leaves the source, if and only if no handle goes into the first chunk in front of bytes that the first two chunks do not cover |
| Upload.WholeUpload | client/util.c:405-442 | the same for the chunks that the client's loop sends |
| UploadRun.SinceIsRange | server/server.c:520-525 | an increasing log with all numbers of a range and no later ones ends with exactly these |
| UploadRun.OrderedArrivals | server/server.c:687-697 | requests dispatched once each and in order are chunks that arrive in order |
| UploadRun.UploadOverNetwork | client/util.c:405-442 | over every run of the key protocol in which the client pauses before its goodbyes, whatever it asked for before the upload, with evictions anywhere, the source is in the temporary file when the client has been answered its last chunk |
| Download.ServeFile | server/server.c:391-430 | the bytes at the position, as many as asked for, a packet at most and 1024 if nothing was said, unless the file ends before |
| Download.UtilDownload | client/util.c:246-299 | the client's loop writes and reports what `Fetched` says |
| Download.DownloadIs | client/util.c:254-286 | what is written is the file from the start to where the file, the positions or the disk end, and exactly when success is reported |
| Download.LastAskedIs | client/util.c:272-285 | the last block asked for is the first that ends behind the last position |
| Download.DownloadComplete | client/util.c:254-286 | the whole rest arrives if and only if the disk takes it and it ends before the last block that can be asked for |
| Download.SuccessIsTrueWhen | client/util.c:272-285 | reported success means a complete file on every disk if and only if the file is no longer than the positions go |
| FifoCache.Cache.constructor | server/fifocache.c:27-73 | an empty cache starts at its first slot |
| FifoCache.Cache.Put | server/fifocache.c:191-215 | the next slot's old record is destroyed, the new one copied over it and no other changed, and the cursor moves on or around |
| FifoCache.Cache.Find | server/fifocache.c:225-242 | the lowest slot with the key is found and a hit or a miss counted |
| FifoCache.Cache.GetKey | server/fifocache.c:285-296 | the key beside an entry, or nothing for a pointer outside |
| FifoCache.Cache.DeleteEntry | server/fifocache.c:306-324 | one slot is destroyed and zeroed, unless the pointer is outside |
| FifoCache.Cache.DeleteByKey | server/fifocache.c:333-349 | every slot with the key is zeroed and no other one, and they are destroyed and counted |
| FifoCache.Cache.Clear | server/fifocache.c:251-273 | everything is destroyed and zeroed, cursor and counters start anew |
| FifoCacheRuns.RingIsQueue | server/fifocache.c:194-212 | read from the cursor the ring is a queue: put drops the oldest and appends, delete empties a place |
| FifoCacheRuns.DeleteKeyIs | server/fifocache.c:333-349 | deleting by key destroys exactly the entries with the key, from the lowest slot on, and counts them |
| FifoCacheRuns.ClearIs | server/fifocache.c:251-273 | clearing destroys exactly what is there, from the lowest slot on |
| FifoCacheRuns.UniqueStep | server/fifocache.c:191-215 | keys stay unique when puts follow misses |
| FifoCacheRuns.RecordRun | server/fifocache.c:225-242 | a record is found in its slot exactly while it is spared and fewer puts came than its distance allows |
| FifoCacheRuns.FoundUntil | server/fifocache.c:191-242 | a record put after a miss is found with its value exactly until it is deleted or cleared or as many records are put as there are slots |
| FifoCacheRuns.RunOwned | server/fifocache.c:194-201 | over any run, what was stored is held or was destroyed, as often as it was stored |
| FifoCacheRuns.DestroyedExactlyOnce | server/fifocache.c:256-266 | a record stored once is destroyed once if it is no longer held, and not at all while it is |
| Coherence.Caches.constructor | server/file.c:264-266 | the caches start empty |
| Coherence.Caches.ValidatePath | server/file.c:264-336 | a record is used while fresh; else it was checked now and has the directory's time, or without directory times the time of the check; no other record changes |
| Coherence.Caches.ServerGetDir | server/file.c:506-586 | a cached listing is sent unless it is older than the record's time; else a new one is built and kept |
| Coherence.Caches.NoteChange | server/file.c:599-600 | the record takes the current time |
| Coherence.Caches.DelFile | server/file.c:591-603 | a delete changes directory and record as one step of the model |
| Coherence.Caches.GetDir | server/file.c:499-587 | so does a listing |
| Coherence.InvStep | server/file.c:264-336 | every step keeps: a record knows of the changes noted under its name or older than its last check, and what a listing does not show came later |
| Coherence.Coherent | server/file.c:506-513 | after any run a listing shows every change noted under the same name and every change as old as the cache timeout, except those of the very second in which it was built |
| Coherence.NotedIsShownWhen | server/file.c:496-513 | whenever a listing is up to date, exactly when a change that is then made and noted is shown to the very next request |
| Coherence.UnnotedIsShownWhen | server/file.c:627-666 | whenever a listing is up to date, exactly when a change that is not noted, such as a new directory, is shown to the very next request |
| Coherence.ShownWhen | server/file.c:506-513 | with any looks, drops and other changes under any names in between, a change is shown if and only if since then the listing was dropped or some request came with a record younger than the listing |
| Coherence.HiddenUntilDropped | server/file.c:286-290 | with directory times, a change in the second in which the listing was built is hidden, however long and often one looks, until the listing is dropped or something else changes |
| HostTable.Table.constructor | server/host.c:99-111 | the table starts with its two sentinels |
| HostTable.Table.Search | server/host.c:61-75 | bisection ends at the address's place, and finds it if and only if it is between the sentinels |
| HostTable.Table.CountAccess | server/host.c:70-70 | the 16-bit counter of one record is raised |
| HostTable.Table.Grow | server/host.c:77-84 | growing keeps every record |
| HostTable.Table.Shift | server/host.c:86-86 | the records behind a place move up by one, the others stay |
| HostTable.Table.Insert | server/host.c:77-91 | a record is put in at its place and every other one kept |
| HostTable.Table.FindHost | server/host.c:55-93 | the table becomes as `AfterFind` says, within its capacity, and the result is the address's record |
| HostTable.KeptWellFormed | server/host.c:55-93 | a lookup keeps the table strictly sorted between its sentinels if and only if the address is not a sentinel's |
| HostTable.FindRefinesMap | server/host.c:55-93 | a lookup makes or counts the one record of its address and changes no other |
| HostTable.RunKeepsMap | server/host.c:55-93 | after any run of ordinary lookups an address has a record exactly if it had one or was looked up, and its counter says how often |
| Throughput.Throttle.constructor | server/server.c:189-193 | the window starts with zero counters |
| Throughput.Throttle.ShiftOnce | server/server.c:353-357 | every counter becomes a second older |
| Throughput.Throttle.Shift | server/server.c:348-359 | the window is moved up to the current second |
| Throughput.Throttle.Sum | server/server.c:360-360 | the counters are added up |
| Throughput.Throttle.ServerReply | server/server.c:346-374 | whatever was logged so far, a packet goes out if and only if the bytes of the ten seconds up to now, divided by ten, are at most the limit, and it is then counted |
| Throughput.RefusalIsFinal | server/server.c:347-374 | a refused packet stays refused in the loop |
| Throughput.AdvanceCounts | server/server.c:348-359 | moving the window keeps the counters equal to what was sent in each of the last ten seconds |
| Throughput.ThroughputBounded | server/server.c:346-374 | every run keeps: the counters equal what was sent, and no ten seconds carry more than ten times the limit, nine bytes and a packet |
| Throughput.ThroughputFromStart | server/server.c:346-374 | so both hold for every run from a new throttle |
| IpRange.ParseIpComponentNum | server/iprange.c:77-95 | the digits are read as a number modulo 2^64, and refused if that is more than 255 |
| IpRange.ParseIpComponent | server/iprange.c:102-120 | a star, a number or a range is read |
| IpRange.ParseIpNumber | server/iprange.c:122-149 | components are read up to a space and what is missing is filled up |
| IpRange.ParseIpLine | server/iprange.c:189-253 | address, type and trimmed message are found, or nothing |
| IpRange.CheckIp | server/iprange.c:27-43 | an address matches if and only if each of its four bytes, its digits to the base of 256, is within the bounds at its place |
| IpRange.CheckIpTable | server/iprange.c:46-58 | the result is the first entry that matches, and nothing only if none does |
| IpRange.ShortIsChecked | server/iprange.c:84-92 | a number of at most 19 digits, zeros in front not counted, is taken if it is at most 255 and else refused |
| IpRange.WrappedIsTaken | server/iprange.c:84-92 | the number 2^64 is taken for zero |
| IpRange.NumberIsCheckedWhen | server/iprange.c:84-92 | all numbers of up to n digits are checked rightly if and only if n is at most 19 |
| IpRange.ParsedIsClean | server/iprange.c:196-250 | what is read has four bounds, a type that is no space or `#`, and a message without spaces around it |
| IpRange.RoundTrip | server/iprange.c:299-308 | the line written for an entry is read back as the same entry, if and only if the entry is such a one |
| IpRange.CutShortIsStars | server/iprange.c:129-146 | an address cut short by a space means the same as one filled up with `*` |
| IpRange.OctetsAre | server/iprange.c:32-37 | the four bytes are the digits of the address to the base of 256 |
| IpGrammar.ComponentReads | server/iprange.c:102-120 | a star, a number or a pair of numbers is read as what it stands for, or refused if a number modulo 2^64 is more than 255 |
| IpGrammar.ComponentIs | server/iprange.c:102-120 | nothing else is read as a component |
| IpGrammar.AddressIs | server/iprange.c:122-149 | an address is read if and only if it is up to four such components with dots between, up to a space if they are fewer, and what is read is what they stand for, with stars for the missing ones |
| IpGrammar.ShortValue | server/iprange.c:84-87 | the value of one, two and three digits |
| IpGrammar.LineReads | server/iprange.c:189-253 | a line of an address or a name, a type and a message, with any spaces around them, is read as these parts |
| IpGrammar.LineIs | server/iprange.c:189-253 | every line that says something has these parts |

## Left out

- Sockets, `select`, signals, `sendto` errors, `CLIENT_TIMEOUT` and the configuration; the clock, what arrives and whether a disk has room are parameters.
- The checksum's arithmetic: a packet is damaged or not, and damage may carry any key.
- Duplicates.AtMostOnceAcrossGoodbyes: does not count the goodbye itself, which a duplicate of it can have dispatched again.
- KeyLockstep.Lockstep: speaks of runs in which the client pauses for the life of a packet before its goodbyes; without the pause `Duplicates.GoodbyeForgets` goes wrong.
- Session.InvStep: generated keys, sequence bases and the key of a client that starts anew are assumed not to be carried by a packet still alive; the random choice itself is not modelled.
- Several clients behind one address, the client lock that shares a key between processes, and the truncated packets that both sides drop.
- ClientInteract.UploadFailureHeard: other packets that reach the server between those of the request are not modelled.
- ClientInteract.Client.Interact: stops when the given arrivals are used up, where the client would wait on; the measured round trip is a parameter.
- FindPlan.NotSquish: works on a list held by a pointer, not on `PLAN` nodes relinked through `PLAN **`, so sharing of nodes is not modelled; the same holds for the other two passes.
- The primaries of `find`, `-exec` and the walk over directories: primaries are opaque and answered by an oracle that sees what ran before.
- DirListing.BuildDirListing: entries for which the room counter wraps (`PadsFit` says which), or that are longer than a whole block, go past the block and are excluded; memory does not run out.
- DirListing.RoundTrip: excludes the same entries.
- DirListing.GetDir: keeps decoded entries where the client lays them out in memory it has measured first; malformed listings, and a listing that the server builds anew between two blocks of one client, which would give a mixture, are not modelled.
- AbsPath.UtilAbsPath: the password suffix is not modelled (the return after a trailing slash skips it).
- Glob.AMatch: a slash in a pattern answers no, where the program goes into a directory; patterns and names have seven-bit characters and no zero.
- Glob.ExecBrc: a pattern with an unclosed brace, or with an unclosed class inside a brace, at which the program reads past the end, answers no.
- Glob.InClass: an unclosed class that ends in a dash stops at the end of the pattern, where the program reads past it.
- The expansion of patterns into directory listings, hidden files and home directories.
- Upload.Server.ServerUpLoad: symbolic links at the temporary name, seeking errors and buffered output that is lost when a handle is closed are not modelled.
- Download.UtilDownload: a start beyond a 32-bit position, which the message would cut off, requests without a length, and files that change on the way are not modelled.
- UploadRun.UploadOverNetwork: has room on the server's disk.
- Installing an upload, grabbing files, access rights, passwords and owner files.
- FifoCache.Cache.Find: a cache without a compare function or with empty keys, which finds nothing, is not modelled; neither are the memory profilers.
- Coherence.Coherent: follows one directory whose time does not go back; prebuilt listing files are off.
- HostTable.Table.FindHost: the lookup of host names is left out, and memory does not run out.
- Throughput.Throttle.ServerReply: reports a refusal where the program would loop.
- IpRange.ParseIpLine: a host name is returned as such, its lookup is not modelled; neither is the growth of the table.
- Remote `ls`, `fspscan`, logging, and the making and removing of directories beyond their effect on listings.
