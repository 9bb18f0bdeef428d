# A verified model of a caching HTTP proxy

The proxy accepts connections on one thread and serves them on a pool of workers. A worker
reads a request, parses it in place, answers it from an in-memory cache, revalidates a cached
response with its origin, or forwards the request and stores the response if its Cache-Control
header permits. A separate thread writes log messages from a queue. This project models
`threadPool.c`, `cache.c`, `logging.c` and `timeparse.c` and proves what they promise.

| file | what it models |
|---|---|
| `WorkerPool*.dfy` | the pool and its shutdown handshake as a state machine over locks, waits, signals and broadcasts, for any number of workers; invariants; theorems over every schedule |
| `CStrings.dfy`, `Holes.dfy`, `LineLoop.dfy` | the C string calls on a buffer, a text with NULs punched into it, and the line loop shared by both parsers |
| `RequestParser.dfy`, `RequestTheorems.dfy`, `RequestFields.dfy` | `parseRequest` on a buffer against a specification on texts; when it restores the text; what it reads, by the texts of words and lines |
| `CacheControl.dfy`, `CacheControlTheorems.dfy`, `Directives.dfy` | `parseCacheHeaders`; its decision in terms of a list of directives, and of their texts |
| `ResponseParser.dfy`, `ResponseTheorems.dfy`, `ResponseFields.dfy`, `ETagScan.dfy` | `parseResponse`; when it restores the bytes; which line decides each field, by the names of the lines; the second way an ETag is read |
| `CountedBody.dfy`, `FramedBody.dfy` | how much of a body is relayed and stored, by the header line that frames it |
| `Revalidation.dfy` | the conditional request, read back by the request parser |
| `Streams.dfy`, `Receiving.dfy`, `Forwarding.dfy`, `ForwardingTheorems.dfy` | partial reads and writes, the growing request buffer, relaying while copying for the cache |
| `HashCache.dfy` | the chained hash table, its ownership rules, and the finite map it refines |
| `Calendar.dfy`, `LogQueue.dfy` | broken-down time and its comparison; the log list as a FIFO |
| `Freshness.dfy`, `Proxy.dfy`, `Exchange.dfy`, `Refresh.dfy`, `Service.dfy`, `Outcomes.dfy`, `Permission.dfy` | which entries may be reused, over every run; lookups, fills and refills on the table; a whole forwarded request, a whole revalidation, one connection from first byte to close, what that leads to by the texts clients and origins send, and which stored texts were permitted to be stored |

Undefined behaviour of the C code (a NULL dereference, an access outside a buffer) is an
outcome of the model (`Fault`, `Crashed`, `Unparsable`, `Overrun`, `Undefined`, `Ruined`), not a
precondition, and the theorems say for which inputs it happens (`Service.RuinedExactly`). Sockets
are scripts: what can be read is a sequence of pieces of data, empty polls and failures, and a
write takes any number of the bytes offered or fails where the script says so.

## Where code and documentation disagree

The model follows the code.

- `threadPool.c:604` says a response is cached only if it was written entirely; `bufferedForward`
  keeps `canCache` after a failed write, a read error or an early close, and stores what it has.
- `threadPool.c:126-148` uses the 0 that `writeall` returns as the number of bytes written, so
  the capacity test of `transferChunks` never asks for more room (`Forwarding.TransferChunks`).
- `threadPool.c:1060` clears 1024 bytes of the request buffer before it is reused for chunks; a
  full chunk is copied together with what is left of a longer request behind it
  (`ForwardingTheorems.CopyIsExact`, `Exchange.KeptIsSentExactly`).
- `threadPool.c:991-996` announces a 404 response; it sends the first 24 bytes of the 400
  response, whose length it takes from the 404 text.
- `threadPool.c:405` compares `private` with its case, and `must-revalidate` as a prefix; RFC 7234
  section 5.2 has directive names in any case.
- A put on an existing key keeps the host first given (`cache.c:82-85`), and a Cache-Control line
  behind an ETag line discards the tag (`threadPool.c:398`).
- Among several max-age directives the last one wins, so their order matters when they differ
  (`CacheControlTheorems.OrderFreeExactly`).
- `timeparse.c:44-51` copies from what `gmtime` returns, which is NULL when a huge max-age leads
  past the last year an `int` can count: such a response is undefined behaviour
  (`Proxy.DatableExactly`, `CacheControlTheorems.DecisionMeans`).
- `threadPool.c:538-541` finds nothing missing when no byte of the body has come with the initial
  read, whatever Content-Length says; the body is then neither relayed (1044) nor stored (1105),
  and later hits replay the bare head (`CountedBody.BodySentExactly`, `CountedBody.HeadSentAlone`).
- A refill (`threadPool.c:736-821`) looks neither at the status nor at the Cache-Control header of
  the new answer, so an answer with `no-store` is stored and served under the old entry's
  freshness (`Permission.RefusalIsStored`, `Permission.TextPermittedExactly`).

## Model

| member | source | states |
|---|---|---|
| `WorkerPoolInvariants.StrandingKeptByOthers` | threadPool.c:168-176 | a push puts a request in transit before it is signalled, and a signal hands it to a woken sleeper, so no request is left behind by any step of the acceptor, of quit or of the wakeups |
| `WorkerPoolInvariants.InvKept` | threadPool.c:168-192 | every step of any worker, of the acceptor and of quit keeps the protocol invariant: lock ownership, exit count, no stranding, conservation |
| `WorkerPoolInvariants.InvAlong` | threadPool.c:1113-1332 | the invariant holds at the end of every schedule, for any number of workers |
| `WorkerPoolTheorems.HandshakeSafe` | threadPool.c:1313-1328 | quit gets past its wait only when all N workers are done, no worker holds or can ask for a mutex, only quit can still move, and serviced equals pushes minus connections left on the stack |
| `WorkerPoolTheorems.LastSignalNotLost` | threadPool.c:178-192 | no exit is counted before quit sleeps on exitCond, and while it sleeps with all exits counted the last worker is just about to signal |
| `WorkerPoolTheorems.SpuriousExitWakeupBreaksHandshake` | threadPool.c:1320 | the wait has no predicate loop: for every number of workers a reachable state exists from which one spurious wakeup of exitCond lets quit tear down with no worker exited |
| `WorkerPoolSpurious.SpuriousWakeupHarmfulExactly` | threadPool.c:1320 | in every reachable state in which quit sleeps, a spurious wakeup can let quit past its wait with a worker left if and only if some worker has neither counted its exit nor holds exitMutex |
| `WorkerPoolTheorems.NoLockCycle` | threadPool.c:1118-1128 | a worker waiting for a mutex or a condition holds no mutex, and when quit holds both it can move, so lock waits form no cycle |
| `WorkerPoolTheorems.NoDeadlock` | threadPool.c:1113-1332 | in every reachable state before quit has finished some thread can take a non-spurious step |
| `WorkerPoolTheorems.StepFalls` | threadPool.c:1118-1288 | once running is 0 every step of every thread, spurious wakeups included, lowers one measure |
| `WorkerPoolTheorems.RunBounded` | threadPool.c:1118-1288 | so the length of any run after that is bounded by the measure of its first state |
| `WorkerPoolTheorems.ShutdownCompletes` | threadPool.c:1313-1328 | whatever the scheduler does after running is cleared, it takes boundedly many steps, nobody sleeps on stackCond after the broadcast, and a run that cannot go on has all workers done and quit finished |
| `WorkerPoolTheorems.NoStrandedRequest` | threadPool.c:168-176 | with stackMutex free and a worker asleep, the stack holds no more requests than woken workers that have not retested; if all sleep the stack is empty |
| `WorkerPoolTheorems.LeavingWakesAll` | threadPool.c:183-185 | a worker that exits while others are left wakes every sleeper on stackCond, and moves nobody else |
| `WorkerPoolTheorems.ConnectionsConserved` | threadPool.c:64-74 | each pushed connection is exactly once on the stack, with one worker or closed; pop never returns NULL where its result is used |
| `WorkerPoolOrder.NewestServedFirst` | threadPool.c:64-74 | in every reachable state pop hands over the connection accepted last of those that wait, and leaves the others in order |
| `CStrings.SplitJoins` | threadPool.c:280 | splitting at a separator loses nothing and leaves no separator in a piece |
| `CStrings.SplitOfJoin` | threadPool.c:280 | only one list of separator-free pieces joins to a given text |
| `CStrings.StrLen` | threadPool.c:350 | strlen finds the first NUL from a place on |
| `CStrings.StrSep` | threadPool.c:262 | strsep punches one NUL over the first separator, changes nothing else and moves the pointer behind it, or to NULL |
| `CStrings.PutAtEnd` | threadPool.c:350 | writing at a string's end fills exactly its first hole |
| `CStrings.NumberReadBack` | threadPool.c:479 | atoi and strtol read back every printed number that fits, whatever non-digit follows |
| `CStrings.SignedReadBack` | threadPool.c:414 | white space and signs before a number, clamping of what does not fit in a long, and truncation to an int |
| `CStrings.CasesOfLetters` | threadPool.c:281 | comparisons that ignore case identify the two cases of an ASCII letter and nothing else |
| `LineLoop.PrefixKept` | threadPool.c:350 | the line loop never touches again what lies before its current line (the frontier of the holes) |
| `LineLoop.LoopText` | threadPool.c:262-351 | a line loop gives the text back exactly when all its lines are good up to the one that stops it; a spoiled line is never repaired |
| `LineLoop.LoopGathers` | threadPool.c:453-523 | on a good header section the loop with all its holes equals a pass over the unchanged text that only gathers fields |
| `LineLoop.LastDecides` | threadPool.c:469-521 | a field is decided by the last line of the section that touches it |
| `RequestParser.EachWord` | threadPool.c:280-308 | cutting the request line at its spaces and putting them back leaves the buffer as it was and folds over the words |
| `RequestParser.ParseHost` | threadPool.c:320-341 | the host is the text behind the first character of the value up to a port colon, less one trailing control character, and the port colon is put back |
| `RequestParser.ParseHeader` | threadPool.c:315-347 | a header line's colon is put back, over the newline's hole if there was none |
| `RequestParser.RestoreNewline` | threadPool.c:350 | the newline goes to the first hole, which is the line's end unless a colon took it, and then the text's end |
| `RequestParser.ParseBody` | threadPool.c:354-370 | the body's first line is cut off and the two final newlines are written, restoring, extending or truncating the text |
| `RequestParser.ParseRequest` | threadPool.c:250-380 | the in-place parser yields exactly the fields of the specification and leaves exactly its text, for every text and buffer size, and the whole buffer behind the text is known too |
| `RequestTheorems.RoundTripExactly` | threadPool.c:250-380 | the request is left byte for byte as it was if and only if its headers are closed by a line starting with a carriage return, every header line has a colon, and the body is empty or starts with a non-empty whole line |
| `RequestTheorems.FoldReadsUri` | threadPool.c:281-305 | by the texts of the words: the URI is the last that is no keyword, the request type is that of the last that is GET, CONNECT or POST in any case, and the connection is secure exactly if some word is CONNECT |
| `RequestTheorems.RequestLineRead` | threadPool.c:280-308 | the same, stated on the parser's own pass over the request line split at spaces |
| `RequestTheorems.ClosedRequest` | threadPool.c:262-370 | everything the parser does with a request whose headers are closed: fields from the request line and last Host line, and the text kept, extended by one newline or cut off as its body says |
| `RequestTheorems.ClosedIsParsed` | threadPool.c:250-380 | with room for one more newline such a request never breaks the parser, unless a Host value cannot be read |
| `RequestFields.HostRead` | threadPool.c:320-341 | the host of such a request is the text in its last line named Host in any case, up to a port, less one unprintable last character |
| `RequestFields.NoHostRead` | threadPool.c:320-341 | without such a line it has none |
| `Revalidation.TemplateParsesBack` | threadPool.c:689-692 | printing the revalidation template and parsing it gives a GET with exactly that URI and host, not a tunnel, and the same text |
| `CacheControl.Token` | threadPool.c:399-404 | one pass cuts off a comma-separated token, skips its first character and trims one trailing carriage return |
| `CacheControl.ParseCacheHeaders` | threadPool.c:383-431 | the in-place loop over the copied value decides as the specification does, empty tokens, over-reads and ages whose expiry has no broken-down time included |
| `CacheControlTheorems.DecideListed` | threadPool.c:399-429 | on a list of directives each behind one space the loop depends on the directives alone |
| `CacheControlTheorems.DecisionMeans` | threadPool.c:405-421 | storing is forbidden iff some directive forbids it and no max-age without a date comes before; otherwise revalidation is demanded iff some directive demands it, and the last max-age gives the expiry; behaviour is undefined iff a max-age without a date comes before everything that forbids storing |
| `CacheControlTheorems.ListedDecision` | threadPool.c:395-430 | the same for the parser on the text of such a list, with or without a carriage return at its end |
| `Directives.VerdictByText` | threadPool.c:405-421 | by the texts of the directives: storing is forbidden iff one is no-store in any case or private; revalidation is demanded iff one starts with must-revalidate in any case or is proxy-revalidate or no-cache; the expiry is that of the last one starting with max-age= in any case; undefined iff an age without a date comes before all that forbids |
| `Directives.AgeIsNumber` | threadPool.c:413-416 | the age is the number printed behind max-age= |
| `CacheControlTheorems.SameDirectives` | threadPool.c:399-429 | only the set of directives matters if all ages have a date and agree, or all have one and something forbids storing, or one has none and nothing forbids storing |
| `CacheControlTheorems.OrderFreeExactly` | threadPool.c:399-429 | every order of the directives gives the same verdict if and only if that condition holds |
| `ResponseParser.ParseLength` | threadPool.c:474-483 | the Content-Length value loses its last character, is read as a number, and gets a carriage return there |
| `ResponseParser.ParseHeader` | threadPool.c:469-521 | a header line with up to three holes is read and everything but its newline is put back |
| `ResponseParser.Finish` | threadPool.c:526-552 | the terminator's newline, the one or two appended newlines and the count of missing body bytes |
| `ResponseParser.ParseResponse` | threadPool.c:434-553 | the in-place response parser leaves exactly the text and reports exactly the fields of the specification |
| `ResponseTheorems.RoundTripExactly` | threadPool.c:453-550 | the bytes of the response are left as they were if and only if its header lines have colons, its Content-Length values end in a carriage return and a lone carriage return closes them |
| `ResponseTheorems.ClosedResponse` | threadPool.c:453-552 | what the parser does with every such response |
| `ResponseTheorems.ReportedFields` | threadPool.c:474-517 | the storage verdict comes from the last Cache-Control line, the length from the last Content-Length line, the transfer mode from the last line setting it, the entity tag from the last ETag line unless Cache-Control follows |
| `ResponseFields.ModeByName` | threadPool.c:474-507 | by the names of the lines, in any case: the transfer is chunked iff the last line named Content-Length or Transfer-Encoding is the latter |
| `ResponseFields.LengthByName` | threadPool.c:474-483 | the length is the number printed in the last line named Content-Length |
| `ResponseFields.VerdictByName` | threadPool.c:484-503 | the storage verdict is that of the texts of the directives in the last line named Cache-Control |
| `ResponseFields.StorableByText` | threadPool.c:484-503 | a response with that line may be stored iff none of its directives forbids it |
| `ResponseFields.NoVerdict` | threadPool.c:551 | a response without such a line is not stored |
| `ResponseFields.TagByName` | threadPool.c:508 | a line is taken for an entity tag iff its name starts with ETag in any case |
| `ResponseTheorems.InitialReadKept` | threadPool.c:1012-1026 | for well-formed responses of 5 to 8191 bytes in the 8193-byte buffer the bytes relayed and cached are those read, except that one of 8191 bytes ending in its terminator's carriage return overruns; what is found missing is given for every length, negative ones and the wrap to int included |
| `ETagScan.Scan` | threadPool.c:764-804 | the case-insensitive search and strsep yield the value behind the first match and restore the text, or append a carriage return where none follows |
| `ETagScan.ScannersAgree` | threadPool.c:508-514 | with one ETag line, behind a line ended by CR LF and every Cache-Control line, the line-by-line parser and the substring search return the same value |
| `Streams.WriteAll` | threadPool.c:76-94 | partial writes are continued: success iff all bytes were taken, in order, and on failure a proper prefix was |
| `Streams.ReadsAreHeard` | threadPool.c:112-119 | whatever the size of a read, polling until a given number of polls were in vain yields exactly the bytes that come before that, the close or a failing read |
| `Streams.BeginStarts` | threadPool.c:958-975 | the start of a response is exactly what comes in time, cut off only when enough has come, and what follows is what is left of the stream; reading fails iff a read fails before that |
| `Receiving.ReadRequest` | threadPool.c:1148-1186 | what is read is exactly what the client sends before the tenth empty poll, in order with NULs behind, in a buffer of the size the doubling rule gives; it fails iff a read fails before that |
| `Receiving.RoomIsEnough` | threadPool.c:1171-1183 | the doubled buffer always has room for the next read and a terminator, and is at most twice what is needed |
| `Receiving.ReadStart` | threadPool.c:958-975 | text, success and what is left of the stream are those of the start of the response, at most 8191 bytes with NULs behind |
| `Forwarding.AppendCache` | threadPool.c:589-607 | the copy grows by the C string of the chunk; one doubling always makes room |
| `Forwarding.BufferedForward` | threadPool.c:558-619 | the client gets the chunks read in order, the copy every chunk passed on whole, fewer than bodySize + 8192 bytes are relayed, and at least bodySize unless a write failed or all that could be read was relayed |
| `Forwarding.TransferChunks` | threadPool.c:96-165 | the client gets exactly what comes before the hundredth empty poll, unless a write fails or the copy overruns; writeall's 0 is taken for a byte count, so that happens at the first chunk with which the copy exceeds its initial capacity; it gives up only if a write or a read fails |
| `ForwardingTheorems.CopyIsExact` | threadPool.c:590-607 | the copy equals what was sent if and only if no chunk holds a NUL and no full chunk brings along text from behind it in its buffer |
| `ForwardingTheorems.OverflowExactly` | threadPool.c:131-147 | on the chunked path the copy overruns iff all that comes in time is too long, and always at the same chunk |
| `ForwardingTheorems.ChunkedCopyFits` | threadPool.c:131-147 | without leftover request text that is so iff initial text and relayed bytes exceed 8192 |
| `HashCache.IndexOf` | cache.c:136-146 | the bucket index is C's remainder of the sum of the signed characters |
| `HashCache.AsciiIsIndexable` | cache.c:136-146 | every ASCII key has a bucket |
| `HashCache.IndexableExactly` | cache.c:136-146 | a key has a bucket if and only if the sum of its signed characters is not negative or a multiple of 100 |
| `HashCache.NoBucket` | cache.c:140-143 | one character above 127 is a key without a bucket |
| `HashCache.Cache.GetNode` | cache.c:89-101 | walking a bucket finds the node of the key iff the table has one |
| `HashCache.Cache.Get` | cache.c:148-150 | lookup is lookup in the finite map |
| `HashCache.Cache.UpdateNode` | cache.c:65-87 | value and info are replaced, key and host stay, and exactly the replaced objects and the unused arguments are freed, each once |
| `HashCache.Cache.PutKey` | cache.c:122-134 | prepends a node or updates the one with the key |
| `HashCache.Cache.Put` | cache.c:152-154 | put is update of the finite map, keeps lists finite, nodes in their buckets and keys unique, and frees nothing twice and nothing still reachable |
| `HashCache.LinkedAdd` | cache.c:126-129 | a node prepended to its bucket keeps every list finite and every node reachable from its bucket |
| `HashCache.OwnedAdd` | cache.c:54-63 | new arguments of a put are owned by the new node alone |
| `HashCache.OwnedUpdate` | cache.c:65-87 | a replaced value and info leave every object of the table live and owned by one node |
| `HashCache.RunMeans` | cache.c:122-154 | over every run of puts a key maps to the value and info put last and the host put first, and other keys to nothing |
| `HashCache.OtherEntriesLive` | cache.c:65-87 | what a put frees is never reachable from another key |
| `Calendar.GmThenMk` | timeparse.c:37-51 | mktime undoes gmtime up to the zone offset, for every second |
| `Calendar.MkThenGm` | timeparse.c:37-51 | gmtime undoes mktime: every proper broken-down time is that of one second |
| `Calendar.ComparesSeconds` | timeparse.c:27-35 | timeAgtB orders UTC broken-down times as the seconds they stand for, in any zone with a fixed offset |
| `Calendar.GregorianYears` | timeparse.c:37-51 | the years of that calendar have the Gregorian lengths |
| `LogQueue.Queue.LogPush` | logging.c:59-76 | a message joins the end of the waiting messages |
| `LogQueue.Queue.LogPop` | logging.c:30-57 | walking to the tail takes the message that has waited longest |
| `LogQueue.LastIsOldest` | logging.c:38-43 | the tail of the list holds the oldest message |
| `LogQueue.FirstInFirstOut` | logging.c:59-100 | over every interleaving of pushes and one writer, written plus in flight plus waiting messages are those pushed, in order |
| `LogQueue.Schedule` | logging.c:30-100 | running any such interleaving with logpush and logpop on the linked list ends in the state of that run, with the list holding what waits |
| `LogQueue.WrittenIsPrefix` | logging.c:78-100 | the log file always holds a first part of what was pushed |
| `Proxy.DatableExactly` | timeparse.c:44-51 | a second has a broken-down time iff its year since 1900 fits in an int; outside of that the expiry copy reads from NULL |
| `Proxy.TimeTest` | timeparse.c:27-35 | the expiry test is now >= stored time + max-age |
| `Proxy.Cacheable` | threadPool.c:195-234 | the answer is the one the finite map with its infos gives: missing, expired, to revalidate, or hit with the stored text |
| `Proxy.StoreNew` | threadPool.c:1105 | storing with new arguments is one fill of the finite map |
| `Proxy.RefillEntry` | threadPool.c:813-821 | storing with the node's own key, host and info changes text and entity tag of that entry only, and keeps its freshness |
| `Freshness.RunDescribed` | threadPool.c:813-821 | over every run an entry carries the freshness of the last response that was allowed to be stored for it and the text of its last fill or refill |
| `Freshness.TagDescribed` | threadPool.c:806-812 | and the entity tag of its last fill, or of the last refill since that brought one |
| `Freshness.HostDescribed` | cache.c:82-85 | and the host of its first fill |
| `Freshness.AnswerExactly` | threadPool.c:195-234 | after every run a lookup misses iff nothing was stored, finds the entry expired iff the last stored response's age is over, and otherwise to be revalidated iff that demanded it, and else hits |
| `Freshness.HitExactly` | threadPool.c:195-234 | after every run a lookup hits if and only if the last stored response did not demand revalidation and is not expired |
| `Freshness.AnswersLastWrite` | threadPool.c:228-231 | what a hit or revalidation yields is the text written last |
| `Directives.AnswerByText` | threadPool.c:195-234 | the same by the texts of the directives of the last stored response: expired iff the last max-age is over, to be revalidated iff one demands it and it is not |
| `Exchange.Open` | threadPool.c:958-1012 | the start of the response is read in time and parsed: the buffer holds what the parser leaves, and that starts with what was read iff its header section is good |
| `Exchange.RelayRest` | threadPool.c:1044-1069 | the rest goes through the buffered or chunked path, or nowhere, as the headers say; without a failing write it is known how much of it, whether the copy may be stored, and when a buffer overruns |
| `Exchange.Transmit` | threadPool.c:958-1069 | as a function of what the origin sends: the client gets the first bytes the parser left and then what was found missing, or all that comes in time of a chunked response, or nothing more; an error text for an empty response; nothing if reading the start fails |
| `Exchange.ForwardRequest` | threadPool.c:949-1110 | the same, and the cache moves by exactly one fill with the kept copy if storing is permitted, unless the response is chunked and a write fails or a read fails in time |
| `Exchange.CrashedExactly` | threadPool.c:1040-1069 | relaying the rest overruns a buffer iff no write fails and the parser's text fills the buffer of a counted body or a storable chunked response is too long for its copy |
| `Exchange.KeptIsSentExactly` | threadPool.c:1012-1105 | the stored text is what the client was sent, up to a chunk lost in a failing write, if and only if the response did not fill the chunked path's buffer in front of leftover request text |
| `CountedBody.BodySentExactly` | threadPool.c:534-552 | of a well-formed response that is relayed and whose announced body all comes, with no failed write, the client is sent head and body if and only if the body is empty or one byte of it came in the initial read; otherwise the bare head; what is stored is what was sent |
| `CountedBody.HeadSentAlone` | threadPool.c:538-541 | an origin that announces five bytes, sends the head, pauses and sends them all: the client gets the bare head |
| `FramedBody.ChunkedSentExactly` | threadPool.c:503-507 | if the last line that frames the body is named Transfer-Encoding, the client is sent the start and exactly what comes in time behind it, and that is stored iff storing is permitted and no read fails in time |
| `FramedBody.CountedSentExactly` | threadPool.c:474-483 | if that line is named Content-Length and prints a number, the body is sent whole iff it is empty or one byte of it came in the initial read |
| `FramedBody.UnframedSentExactly` | threadPool.c:1043-1069 | without such a line the client is sent the initial read alone, and that is stored if storing is permitted |
| `Refresh.GetRevalidation` | threadPool.c:666-829 | an entry with a tag is asked about with the template; on 304 nothing is sent and the entry stays; any other answer is relayed, exactly what comes of it in time, and refills the entry with the tag found; without a failing write it is undefined iff the template or the copy is too long, and else fails iff the origin is out of reach or a read fails in time |
| `Refresh.RenewedIsSentExactly` | threadPool.c:760-821 | the refilled text is what the client was sent if and only if the answer's first part has no entity tag cut off before its carriage return |
| `Service.Send` | threadPool.c:940-947 | the request text goes to the origin whole, or the connection is closed because it is a tunnel, unreachable or a write failed |
| `Service.Respond` | threadPool.c:1209-1275 | a hit is answered with the stored text and neither origin nor cache is touched; an entry with a tag that needs revalidation is revalidated and, on 304, its text sent; all else is forwarded; what is sent and stored is given by what the origin sends |
| `Service.ServeConnection` | threadPool.c:1148-1279 | what the client sends in time is parsed and answered as stated above, it is left unread iff a read fails, the cache changes by at most one enabled change of the requested URI's entry, and the connection is closed exactly once unless behaviour is undefined, which with writes that do not fail depends on the input alone |
| `Service.WellFormedIsUnderstood` | threadPool.c:1148-1206 | a request with closed headers and a readable host never breaks the parser, whatever its length |
| `Outcomes.MethodDecides` | threadPool.c:850-945 | a request that the cache cannot answer alone is tunnelled iff its last method is CONNECT, and any other goes to the origin whole |
| `Outcomes.ChangeIsNamed` | threadPool.c:1105 | a request changes the entry of its own URI only, and a fill brings the host read from it |
| `Outcomes.UnreachableIsSilent` | threadPool.c:836-843 | with the origin out of reach and no fresh entry the client is sent nothing and the cache stays as it is |
| `Outcomes.HitIsSent` | threadPool.c:1209-1217 | a fresh entry is what the client is sent, and the origin is asked nothing |
| `Outcomes.TagIsAsked` | threadPool.c:689-703 | the request for an entry stored from a response with one tag line asks, in these words, for that tag at the host first stored |
| `Outcomes.NotModifiedIsSent` | threadPool.c:739-742 | if the answer starts with the status line of a 304 the client is sent the stored text and the entry stays |
| `Outcomes.ModifiedIsSent` | threadPool.c:744-821 | if it starts with that of a 200 the client is sent the answer as far as it comes in time, and the entry gets it |
| `Outcomes.NewTagKept` | threadPool.c:806-812 | and the entry gets the tag of the answer's only tag line |
| `Outcomes.ShortIsRejected` | threadPool.c:1190-1198 | a request of at most four characters, and no other, is answered with the 400 error |
| `Outcomes.ShortIsReported` | threadPool.c:991-997 | a response of at most four characters, and no other, is replaced by the first 24 characters of that error |
| `Outcomes.PausesHeardExactly` | threadPool.c:1148-1186 | what comes behind a pause is heard iff the pause is shorter than 10 polls of a client, 10000 of a response's start, 100 of its rest |
| `Service.RuinedExactly` | threadPool.c:1113-1284 | behaviour is undefined iff no write fails before and the client's bytes, the origin's bytes and the cache are such that the request breaks its parser or has no URI, host or bucket, or the response or answer breaks its parser or overruns |
| `Service.RuinsByLength` | threadPool.c:131-147 | in lengths: the response must be one that breaks its parser, a counted one whose text fills the buffer, or a storable chunked one of more than 8192 bytes; a template or an answer must be too long by the same measure |
| `Service.ServedRun` | threadPool.c:1148-1279 | the cache after any sequence of connections on a new cache is the end of the run of their changes, so the statements over every run of fills and refills hold of it |
| `Permission.ChangeComesFrom` | threadPool.c:736-821 | what one connection stores is a response that permits it, or the answer to a revalidation whatever that says |
| `Permission.PermitsByLastLine` | threadPool.c:484-503 | a response permits storing iff its last Cache-Control line does |
| `Permission.TextPermittedExactly` | threadPool.c:736-821 | over every run the text of an entry comes from a response that permits storing iff the last write was a fill, or a refill with an answer that happens to permit it |
| `Permission.RefusalIsStored` | threadPool.c:736-821 | an origin that answers a revalidation with a response that says no-store: it replaces the entry's text |
| `Service.ReplaysExactly` | threadPool.c:1209-1217 | a later hit sends exactly the bytes the filling request sent its own client, if nothing was written to the entry in between |

## Left out

- The CONNECT tunnel loop: an opaque relay between two sockets; `Service` has it as the outcome `Tunnelled`.
- Sockets, name lookup, `main`, the daemon set-up and signal delivery: `quit` is a sequence of steps of the main thread that starts between two of its accept steps, never inside `push`.
- Spurious wakeups of exitCond are excluded by the step relation, and when one would do harm is proved; spurious wakeups of stackCond are steps.
- Descriptor 0, which `stackEmpty` takes for an empty stack: accepted descriptors are not 0.
- Failing allocations, and `int` overflow of buffer capacities and sums beyond 2 GiB; the truncation of the missing-byte count in `parseResponse` to `int` is modelled.
- NULs inside requests and responses: `Exchange`, `Refresh` and `Service` assume byte streams without them; `Forwarding` does not.
- Uninitialised memory: the last byte of the response buffer, which is never cleared, is taken to be NUL when the response has been read, and a response whose second appended newline reaches it counts as undefined behaviour once its body is relayed. Pointers `parseRequest` never sets count as undefined behaviour when used.
- Concurrent use of the cache by several workers: `get` and `put` are atomic. The runs of `Freshness` interleave fills and refills freely; in `Service` one request runs alone.
- A clock that moves while one response is parsed: all its max-age directives see one time, and that time itself has a broken-down form. Zones with daylight saving: the offset of mktime is fixed.
- Freeing of entity tags, expiry times and request structures: the ownership proof covers keys, values, hosts and infos.
- Pointer reassembly around `strcasestr` (`threadPool.c:773-778`): the search yields an index.
- Tracing output, log line formatting, the log file, and the writer's 50-byte buffer; the second pass of `writeLog`, which waits without holding the mutex, is covered only as far as the locks inside `logpush` and `logpop` make their calls atomic.
- `clearCache`, `getValue`, `parseTime`, `printTime`, and the exercises beside the proxy: they would add only easy members.
- Refresh.GetRevalidation: leaves open how much of an answer the client was sent when a write fails in the middle of it.
