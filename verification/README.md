# Models of the Linux network programming demos

Most of the repository is small network demos; a few files hold data structures and
protocols with real guarantees. This project models those files in Dafny and proves what
they keep over every run. `dafny verify dfyconfig.toml` checks all of it.

Objects that the C and C++ code updates in place are classes with the same fields, loops
are loops, and every method is tied to a function or relation on values about which the
theorems are proved. Whatever the operating system decides is a parameter: the sizes of
short reads and writes, what a peek sees, new descriptors, process numbers, the clock, and
the scheduler. Callbacks append to a log.

| file | models |
|---|---|
| `CStrings`, `LineFraming`, `RequestLine` | C string functions over a buffer, CRLF line framing (RFC 9112, section 2.2), request line (RFC 9112, section 3) |
| `HttpParser` | the incremental parser of chapter 8 and its receive loop |
| `HttpConn` | the parser of the chapter 15 web server, which keeps pointers into its buffer |
| `TimerWheel`, `SortedTimerList`, `TimerHeap`, `TimerEquivalence` | the three timer containers of chapter 11 and their common meaning |
| `BoundedBuffer`, `BufferRuns` | the producer-consumer ring with two semaphores and a mutex, step by step, and its runs told by counting steps |
| `ThreadPool` | the worker pool of chapter 15, step by step |
| `Dispatcher` | the round-robin dispatch of the process pool |
| `ConnPool`, `ConnRuns`, `Relay` | the load balancer: its connection maps, their runs, and the byte relay of one pair |
| `SysUtil` | complete reads and writes, and the line reader of the ftp server |
| `PrivChannel`, `FtpTransfer` | the channel to the privileged process, and how PORT and PASV use it (RFC 959, section 4.1.2) |
| `ChannelSteps` | the same channel with both processes running at once, piece by piece |
| `RateLimit`, `Accounting` | bandwidth limit and connection counts of the ftp server |
| `TalkServer` | the user table of the shared-memory chat server |
| `Rings`, `Wrappers` | cyclic positions, and optional values |

The models with two or more threads or processes (`BoundedBuffer`, `ThreadPool`,
`ChannelSteps`) are state machines: each method is one atomic step, and a schedule picks whose
step runs next. `Valid()` is the invariant over all reachable states.

Runs are described without the model's own step functions where that is possible: which timer
fires on a tick, which child gets a connection, which client is bound and which children are
live is said by the positions of the operations or events alone, and what a parser answers by
the bytes alone.

## What the code does, where one might expect otherwise

- The wheel visits a slot before leaving it, so a timer with k ticks fires on the (k+1)-th
  tick (`TimerWheel.FiresOnceOnTime`).
- `adjust_timer` only moves a timer towards the tail. The list stays sorted exactly when the
  new expiry is not before that of the predecessor (`SortedTimerList.AdjustKeepsOrderIff`).
- The positions of the producer-consumer ring are 16 bits wide although its size is 32 bits
  wide. Up to 65536 slots every run is right (`BufferRuns.Run`), and for every larger ring
  there is a run that is not (`BoundedBuffer.Overrun`). The product number reaches -1, the
  mark of an empty slot, after 2^32 - 1 products.
- With both PORT and PASV armed, `port_active` and `pasv_active` call each other until the
  stack is used up, however large it is; the error exit written for this case is not
  reachable (`FtpTransfer.ActiveAnswersIff`). The methods take the room on the stack as a
  parameter.
- A limit of 0 is reported as "no limit" to the client, but `limit_rate` divides by it
  (`RateLimit.Session.LimitRate`).
- The conversion of the speed to an unsigned int is undefined in C when it does not fit. The
  model wraps around. A limit of at most 2^31 then bounds exactly the chunks whose speed
  fits; every faster chunk gets through at twice the limit or more, whether it is paused or
  not (`RateLimit.ChunkBound`, `RateLimit.WrappedRateExists`).
- `mgr::process` for a descriptor that is not registered leaves a null entry behind that
  later inserts do not replace, so the pool is no longer consistent, and a client that gets
  this descriptor is not served (`ConnPool.Mgr.Process`, `ConnPool.StrayEvent`).
- `readline` answers the number of bytes since its last peek and not the length of the line;
  the two agree exactly when the first peek could see the whole line
  (`SysUtil.ControlSocket.Readline`).
- The parser of chapter 15 answers NO_REQUEST to a malformed line end, where that of chapter
  8 answers BAD_REQUEST; apart from that and from bodies they take the same inputs
  (`HttpParser.RejectedIff`, `HttpConn.RejectedIff`, `HttpConn.SameMessages`). When its buffer
  just fills up, `read` calls `recv` once more without any room; it fails if that answers 0,
  and succeeds if it answers EAGAIN, which is left to the system
  (`HttpConn.HttpConnection.Read`).
- A child of the ftp server that is reaped before its entry is added leaves a stale entry and
  one connection too many for its address; the tables agree exactly as long as this has not
  happened, and other children may be reaped at that point (`Accounting.Server.Accept`,
  `Accounting.StaleStays`).
- A timer heap of capacity 0 can be made but not used: doubling leaves it without a cell.
- In the talk server the entry of a dead process keeps an index when that process was the
  last user (`TalkServer.Server.Reap`).

## Model

| member | source | states |
|---|---|---|
| LineFraming.ParseLine | linux_high_performance/8/8-3httpparser.cpp:18-50 | The line scanner in place, branch by branch: status, new position and buffer contents for every buffer, position and length, with the two NULs written over a CRLF and nothing else changed. |
| LineFraming.LineIffTerminated | linux_high_performance/8/8-3httpparser.cpp:18-50 | A line is framed if and only if the input is a text free of CR and LF followed by CRLF; a bare CR or LF is never a terminator. |
| LineFraming.OpenOrBadIff | linux_high_performance/8/8-3httpparser.cpp:18-50 | The scanner waits if and only if there is no line end yet (a CR may be the last byte), and rejects if and only if the first line end is a bare LF or a CR with something else behind it. |
| LineFraming.FrontStable | linux_high_performance/8/8-3httpparser.cpp:18-50 | More input never changes a framing decision already taken. |
| LineFraming.CarriageReturnNeverSplit | linux_high_performance/8/8-3httpparser.cpp:38-45 | Between calls a line feed never follows a carriage return that an earlier call has scanned, so the branch for a split CRLF is unreachable. |
| LineFraming.ScanIsFrontLine | linux_high_performance/8/8-3httpparser.cpp:18-50 | A scan resumed at checked_index finds the front line of all the pending bytes. |
| LineFraming.NextLine | linux_high_performance/8/8-3httpparser.cpp:125-128 | One turn of the loop head: the line left as a C string at its old start and the rest of the input untouched, or nothing consumed. |
| RequestLine.RequestPathIffGrammar | linux_high_performance/8/8-3httpparser.cpp:52-99 | The pointer walk over a request line accepts exactly the grammar (method, blanks, target, blanks, version, compared without case) and yields exactly its path. |
| CStrings.EqualNoCaseIff | linux_high_performance/8/8-3httpparser.cpp:62-79 | The comparison without case holds exactly for texts of the same length whose characters are the same but for the case of letters. |
| RequestLine.AcceptedInAnyCase | linux_high_performance/8/8-3httpparser.cpp:52-99 | GET, a path and HTTP/1.1 are accepted in any case of the letters and with any blanks between them, and the path is found. |
| RequestLine.TerminateWord | linux_high_performance/8/8-3httpparser.cpp:54-59 | Cutting a word in place with a NUL leaves both the word and the remainder as C strings and touches nothing outside the line. |
| RequestLine.FindPath | linux_high_performance/8/8-3httpparser.cpp:84-93 | The target is accepted, and the pointer moved to its path, exactly for an absolute path or an http URL with one. |
| RequestLine.ParseRequestLine | linux_high_performance/8/8-3httpparser.cpp:52-99 | The scanner over the buffer succeeds exactly on the lines of the grammar and returns the pointer to the path. |
| HttpParser.ResumeParse | linux_high_performance/8/8-3httpparser.cpp:121-167 | Parsing s, waiting, and going on with t gives the verdict and the waiting place of parsing s + t at once. |
| HttpParser.VerdictStable | linux_high_performance/8/8-3httpparser.cpp:121-167 | A verdict, once reached, is not changed by further input. |
| HttpParser.NeverInternalError | linux_high_performance/8/8-3httpparser.cpp:153-156 | INTERNAL_ERROR is unreachable: from the two reachable states the verdict is NO_REQUEST, GET_REQUEST or BAD_REQUEST. |
| HttpParser.AcceptedIffMessage | linux_high_performance/8/8-3httpparser.cpp:121-167 | GET_REQUEST is answered if and only if the input starts with a request line of the grammar, header lines and a blank line, each ended by CRLF. |
| HttpParser.RejectedIff | linux_high_performance/8/8-3httpparser.cpp:121-167 | BAD_REQUEST is answered if and only if lines that decide nothing (a request line of the grammar and header lines) are followed by a misplaced line end, or the first line is complete and not of the grammar. |
| HttpParser.WaitsIff | linux_high_performance/8/8-3httpparser.cpp:121-167 | The parser waits if and only if such lines are followed by a part without a line end; it is then in the state that the lines lead to, with exactly that part pending. |
| HttpParser.RequestParser.ParseText | linux_high_performance/8/8-3httpparser.cpp:129-157 | The state switch over one line in the buffer gives the verdict of that line and enters the header state exactly when it should. |
| HttpParser.RequestParser.ParseContent | linux_high_performance/8/8-3httpparser.cpp:121-167 | The parse loop in place refines one parse of the pending bytes: same verdict, and when it waits, the same state and the same pending bytes. |
| HttpParser.RequestParser.Feed | linux_high_performance/8/8-3httpparser.cpp:224-239 | One receive round: the verdict is that of one parse over everything received so far. |
| HttpParser.Serve | linux_high_performance/8/8-3httpparser.cpp:210-240 | For every stream and every pattern of recv sizes and failures: GET_REQUEST only to a message and BAD_REQUEST only to what is rejected, both judged on all bytes that fit; the answer comes in the first round that decides it, and none comes only if a recv delivers nothing before that. |
| HttpConn.ParseInPieces | linux_high_performance/15/15-5http_conn.cpp:267-322 | Parsing in two instalments is parsing at once: outcome, fields and unconsumed bytes, in every state, until a body is awaited. |
| HttpConn.RejectedIff | linux_high_performance/15/15-5http_conn.cpp:267-322 | BAD_REQUEST comes if and only if the first line is complete and not of the grammar; a misplaced line end is never rejected here. |
| HttpConn.SameMessages | linux_high_performance/15/15-5http_conn.cpp:267-322 | The parsers of chapters 8 and 15 take exactly the same messages, whatever the bytes. |
| HttpConn.MessageEnds | linux_high_performance/15/15-5http_conn.cpp:209-254 | A message leads to the wait for its body if and only if its last Content-Length is not 0 in 32 bits, and to do_request otherwise, with nothing behind the blank line consumed. |
| HttpConn.AtolReads | linux_high_performance/15/15-5http_conn.cpp:235-240 | A decimal number is read behind any white space and sign, up to the first character that is not a digit; without digits it is 0. |
| HttpConn.ToInt32Is | linux_high_performance/15/15-5http_conn.cpp:239 | The length is kept modulo 2^32, in the range of an int. |
| HttpConn.HttpConnection.ParseHeaders | linux_high_performance/15/15-5http_conn.cpp:209-254 | A header line in the buffer sets exactly the fields it should (linger, content length in 32 bits, host pointer) and decides at the blank line. |
| HttpConn.HttpConnection.ParseText | linux_high_performance/15/15-5http_conn.cpp:276-302 | The state switch over one line in the buffer refines the effect of that line on the request, and keeps the stored pointers alive. |
| HttpConn.HttpConnection.ProcessRead | linux_high_performance/15/15-5http_conn.cpp:267-322 | The loop over the buffer refines one parse of the pending bytes: outcome, all request fields and the waiting place. |
| HttpConn.HttpConnection.PointerKept | linux_high_performance/15/15-5http_conn.cpp:103-115 | Framing a further line leaves the C strings behind m_url and m_host as they were. |
| HttpConn.HttpConnection.Read | linux_high_performance/15/15-5http_conn.cpp:133-160 | For every pattern of recv sizes and every end, reading appends exactly what has arrived and fits; it succeeds if and only if the recv that delivers nothing answers EAGAIN, be it for lack of input or of room. |
| HttpConn.Converse | linux_high_performance/15/15-5http_conn.cpp:133-322 | Over any bursts and recv sizes that fit in the buffer, outcome and fields are those of one parse over all the bytes. |
| HttpConn.HeadersEffect | linux_high_performance/15/15-5http_conn.cpp:209-254 | Printed headers, with names in any case and any blanks, set linger if and only if some Connection header says keep-alive in any case, host to the last Host value, and the length to the last Content-Length; a body is awaited if and only if that is not 0. |
| HttpConn.PrintThenParse | linux_high_performance/15/15-5http_conn.cpp:162-254 | A printed GET request, in any case and with any blanks and headers, is parsed to its path, the keep-alive flag, the last host and the last length; it ends in do_request or the wait for the body, and nothing after it is consumed. |
| HttpConn.Fetch | linux_high_performance/15/15-5http_conn.cpp:267-322 | The same on the connection itself: a printed request, cut into any bursts and recv sizes, leads to the outcome and the fields that were printed. |
| TimerWheel.TimeWheel.AddTimer | linux_high_performance/11/11-5tw_timer.h:56-86 | Puts one new timer into the wheel, due after max(timeout / TI, 1) further ticks, or nothing for a negative timeout; all links stay well formed and no other timer changes. |
| TimerWheel.SlotOfTicks | linux_high_performance/11/11-5tw_timer.h:71-72 | Slot distance plus N times the rotation is the number of ticks asked for. |
| TimerWheel.TimeWheel.DelTimer | linux_high_performance/11/11-5tw_timer.h:87-112 | Unlinks exactly the given timer, at the head or inside its slot list. |
| TimerWheel.TimeWheel.VisitTimer | linux_high_performance/11/11-5tw_timer.h:117-151 | One turn of the tick loop: a timer with rotations left loses one, any other one runs its callback and leaves the list. |
| TimerWheel.TimeWheel.VisitSlot | linux_high_performance/11/11-5tw_timer.h:115-151 | The loop over the current slot fires exactly the timers with no rotation left, each once, and takes one rotation from the rest of that slot. |
| TimerWheel.TimeWheel.Tick | linux_high_performance/11/11-5tw_timer.h:113-153 | Exactly the timers due on this tick fire and leave; every other deadline stays where it is. |
| TimerWheel.FiresOnceOnTime | linux_high_performance/11/11-5tw_timer.h:113-153 | In every sequence of operations a timer with k ticks that is not deleted fires on the (k+1)-th tick after its addition and on no other. |
| TimerWheel.NeverFires | linux_high_performance/11/11-5tw_timer.h:87-153 | After a timer has fired, or was deleted, no later tick of the sequence fires it. |
| TimerWheel.Drive | linux_high_performance/11/11-5tw_timer.h:56-153 | Over every sequence of add, del and tick the wheel runs on each tick the callbacks of exactly those timers, once each, whose k ticks have passed since their addition and that were not deleted in between. |
| BoundedBuffer.CountedAfter | unix/producer-consumer/commen.h:79-125 | Every step keeps the accounts: sem_empty plus threads in flight are the free slots, sem_full plus threads in flight are the items. |
| BoundedBuffer.RingPut | unix/producer-consumer/commen.h:88-90 | The slot that a producer writes is empty, and the ring then holds one more product in order. |
| BoundedBuffer.RingTake | unix/producer-consumer/commen.h:111-114 | The slot that a consumer reads holds the oldest product. |
| BoundedBuffer.RingAdvance | unix/producer-consumer/commen.h:93-117 | Moving a position on, in 16 bits, keeps it at the slot of the next store or take. |
| BoundedBuffer.Storage.SemaphoreStep | unix/producer-consumer/commen.h:83-123 | A wait or post keeps the invariant. |
| BoundedBuffer.Storage.MutexStep | unix/producer-consumer/commen.h:85-121 | A lock or unlock keeps the invariant, with one thread in the critical section. |
| BoundedBuffer.Storage.StoreProduct | unix/producer-consumer/commen.h:90 | The store fills an empty slot with the next product; nothing is overwritten. |
| BoundedBuffer.Storage.TakeProduct | unix/producer-consumer/commen.h:111-113 | What a consumer announces is the oldest product not announced yet. |
| BoundedBuffer.Storage.Step | unix/producer-consumer/commen.h:79-125 | Whichever thread is scheduled, its next atomic step keeps the invariant, and the ring behaves as a queue. |
| BoundedBuffer.Storage.NeverDeadlocked | unix/producer-consumer/commen.h:79-125 | With a slot, a producer and a consumer some thread can always go on. |
| BufferRuns.Run | unix/producer-consumer/commen.h:57-125 | For any number of producers and consumers and any schedule, which entries run and how many products are announced is told by the steps of the threads alone. For up to 65536 slots the announced items are 1, 2, 3, .. without loss, repetition or the empty mark, until the 32-bit counter reaches its sign bit. |
| BufferRuns.EnabledIff | unix/producer-consumer/commen.h:79-125 | A thread can go on if and only if counting says so: at a semaphore, if fewer have waited than there were slots or posts; at the mutex, if no thread is between its third and sixth step. |
| BufferRuns.NextReached | unix/producer-consumer/commen.h:79-125 | A step changes semaphores, program points and announcements exactly as the number of steps of its thread says. |
| BoundedBuffer.Overrun | unix/producer-consumer/commen.h:57-125 | For every larger number of slots there is a schedule of one producer and one consumer after which the first announced item is 65537 instead of 1. |
| BoundedBuffer.ItemRange | unix/producer-consumer/commen.h:49-90 | Every product number is k in the 32 bits of an int, so up to the sign bit it is k; the counter produces the empty mark -1 exactly once per turn. |
| BoundedBuffer.PositionsApartIff | unix/producer-consumer/commen.h:48-117 | The 16-bit positions of all products that may wait are different if and only if the ring has at most 65536 slots. |
| SortedTimerList.StableInsertion | linux_high_performance/11/11-2lst_timer.h:43-171 | The place where the list inserts is the only one that keeps the order and comes behind all equal expiries. |
| SortedTimerList.AdjustKeepsOrderIff | linux_high_performance/11/11-2lst_timer.h:63-87 | Adjusting keeps the list sorted if and only if the new expiry is not before that of the predecessor, as after an extension; it is then a stable insertion, and otherwise the timer stays where it is. |
| SortedTimerList.SortTimerLst.AddAfter | linux_high_performance/11/11-2lst_timer.h:146-171 | The private overload inserts, by relinking, before the first later expiry behind its start. |
| SortedTimerList.SortTimerLst.AddTimer | linux_high_performance/11/11-2lst_timer.h:43-62 | Adding is insertion at the rank of the expiry, on the doubly linked list itself. |
| SortedTimerList.SortTimerLst.AdjustTimer | linux_high_performance/11/11-2lst_timer.h:63-87 | The changed timer is moved towards the tail to the place given, with the links intact, and the list is sorted again exactly under the condition above. |
| SortedTimerList.SortTimerLst.DelTimer | linux_high_performance/11/11-2lst_timer.h:88-118 | Takes exactly the given timer out, in all four cases, with the rest in order. |
| SortedTimerList.SortTimerLst.Tick | linux_high_performance/11/11-2lst_timer.h:119-143 | Runs the callbacks of exactly the expired prefix, in order, and keeps the rest; tail is free when the list is drained. |
| TimerHeap.TimeHeap.FromArray | linux_high_performance/11/11-6time_heap.h:50-77 | Building bottom-up from an array gives a heap of exactly its timers, or fails if and only if the capacity is too small. |
| TimerHeap.RootIsFirst | linux_high_performance/11/11-6time_heap.h:120-127 | In heap order the root has the earliest expiry of all. |
| TimerHeap.SinkStep | linux_high_performance/11/11-6time_heap.h:170-180 | Moving the hole down to its smaller child keeps heap order except at the hole. |
| TimerHeap.RiseStep | linux_high_performance/11/11-6time_heap.h:100-108 | Moving the hole up to its later parent keeps heap order below the hole. |
| TimerHeap.TimeHeap.PercolateDown | linux_high_performance/11/11-6time_heap.h:166-187 | Sinking restores heap order from one level further up and keeps the multiset of timers. |
| TimerHeap.TimeHeap.PercolateUp | linux_high_performance/11/11-6time_heap.h:98-109 | Raising the hole adds exactly the new timer and keeps heap order. |
| TimerHeap.TimeHeap.Resize | linux_high_performance/11/11-6time_heap.h:188-206 | Doubling the array keeps the stored timers. |
| TimerHeap.TimeHeap.AddTimer | linux_high_performance/11/11-6time_heap.h:88-110 | Adds exactly the timer, growing when full, and keeps heap order. |
| TimerHeap.TimeHeap.Top | linux_high_performance/11/11-6time_heap.h:120-127 | Answers a timer with the earliest expiry, or null when empty. |
| TimerHeap.TimeHeap.PopTimer | linux_high_performance/11/11-6time_heap.h:128-140 | Removes exactly the root and keeps heap order, although cell 0 is stale after the last removal. |
| TimerHeap.TimeHeap.Tick | linux_high_performance/11/11-6time_heap.h:141-162 | Removes exactly the expired timers, in order of expiry, and runs the callbacks of those not cancelled. |
| TimerEquivalence.ListAnswers | linux_high_performance/11/11-2lst_timer.h:119-143 | The expired prefix of the list is exactly what a bag of expiry times has to fire. |
| TimerEquivalence.PendingIff | linux_high_performance/11/11-2lst_timer.h:43-143 | A timer is pending exactly from its addition to its deletion or to the first tick whose time reaches its expiry, told by the positions of the operations. |
| TimerEquivalence.FiresOnce | linux_high_performance/11/11-2lst_timer.h:88-143 | A timer fires at most once, and not after a deletion. |
| TimerEquivalence.DriveList | linux_high_performance/11/11-2lst_timer.h:43-143 | Over every sequence of add, del and tick each tick of the list runs, in order of expiry and once each, the callbacks of exactly the timers that it is the first to reach after their addition and that were not deleted before. |
| TimerEquivalence.DriveHeap | linux_high_performance/11/11-6time_heap.h:88-162 | The heap with lazy deletion does the same. |
| TimerEquivalence.RunBoth | linux_high_performance/11/11-6time_heap.h:88-162 | List and heap are observationally equal: on every tick of every run both run exactly the callbacks of the timers that this tick is the first to reach and that were not deleted, each once, in non-decreasing expiry. |
| PrivChannel.IntRoundTrip | miniftpd/src/privsock.c:103-126 | Every 32-bit int survives its four bytes. |
| SysUtil.Writen | miniftpd/src/sysutil.c:362-384 | Appends exactly the buffer, for every pattern of short writes. |
| SysUtil.Readn | miniftpd/src/sysutil.c:331-353 | Takes exactly count items, or all there are at the end of the stream, for every pattern of short reads. |
| PrivChannel.Pipe.GetInt | miniftpd/src/privsock.c:114-126 | Consumes exactly four bytes and answers the int sent. |
| PrivChannel.Pipe.SendBuf | miniftpd/src/privsock.c:128-137 | Sends the length and the buffer. |
| PrivChannel.Pipe.RecvBuf | miniftpd/src/privsock.c:139-154 | A buffer sent with SendBuf that fits is received unchanged and exactly consumed, whatever follows it. |
| PrivChannel.Pipe.RecvFd | miniftpd/src/privsock.c:161-164 | A sent descriptor is received, and nothing else is taken for one. |
| FtpTransfer.Session.PrivopGetDataSock | miniftpd/src/privparent.c:76-117 | Consumes exactly port and address, connects to these, and answers OK with the descriptor or BAD. |
| FtpTransfer.DottedReadsBack | miniftpd/src/ftpproto.c:566 | The text sent for an address is read back to its four numbers in their order, without leading zeros. |
| FtpTransfer.Session.PrivopPasvAccept | miniftpd/src/privparent.c:152-167 | Closes the listener in every case and answers OK with the accepted descriptor or BAD. |
| FtpTransfer.Session.HandleParent | miniftpd/src/privparent.c:46-74 | One turn of the command loop consumes exactly one command with its arguments and sends exactly its answer, for all four commands. |
| FtpTransfer.Session.PortActive | miniftpd/src/ftpproto.c:327-340 | For every stack size and whatever is armed, ends as the mutual recursion does: with the right answer, or at the end of the stack; the channel is empty again. |
| FtpTransfer.Session.PasvActive | miniftpd/src/ftpproto.c:529-554 | The same for PASV, which asks the privileged process at every level of the recursion. |
| FtpTransfer.ActiveAnswersIff | miniftpd/src/ftpproto.c:327-554 | The mutual recursion answers at all if and only if not both are armed; the exit meant for both is unreachable, and the answers are right. |
| FtpTransfer.Session.GetPortFd | miniftpd/src/ftpproto.c:556-581 | Succeeds exactly when the privileged connect does, with that descriptor, to the announced address; the channel is empty again. |
| FtpTransfer.Session.GetPasvFd | miniftpd/src/ftpproto.c:583-597 | Succeeds exactly when the accept does, and the listener is gone in any case. |
| FtpTransfer.Session.DoPasv | miniftpd/src/ftpproto.c:775-807 | The port of the reply is the port of the listener. |
| FtpTransfer.Session.GetTransferFd | miniftpd/src/ftpproto.c:599-669 | Ends with neither armed and returns 1 exactly if the armed kind is connected, with its descriptor, and the announced address is the only one connected to; with both armed it never comes back, for every stack size. |
| FtpTransfer.ArmedIsGiven | miniftpd/src/ftpproto.c:753-807 | Until an ambiguous transfer, what is armed is what was given since the last transfer. |
| FtpTransfer.ResultMeans | miniftpd/src/ftpproto.c:599-669 | A transfer gets lost exactly when both a PORT and a PASV are waiting, and succeeds exactly when one is and its connection comes about. |
| FtpTransfer.RunSession | miniftpd/src/ftpproto.c:599-669 | Over every session and every stack size, the channel is empty at the command boundary reached, every transfer has the result above, and the session is lost exactly in the first transfer with both a PORT and a PASV waiting. |
| ChannelSteps.WantedIsRequest | miniftpd/src/privparent.c:51-93 | However a command arrives, the reads of the privileged process stop exactly at its end. |
| ChannelSteps.NeededIsReply | miniftpd/src/privsock.c:89-126 | However an answer arrives, the reads of the ftp process stop exactly at its end. |
| ChannelSteps.ListenFdIs | miniftpd/src/privparent.c:119-167 | The listener is that of the last PASV with no accept behind it, and there is none otherwise. |
| ChannelSteps.ConnectsAre | miniftpd/src/privparent.c:76-117 | Every connection tried is noted in turn with the address and port of its own call, and no other. |
| ChannelSteps.Channel.Move | miniftpd/src/privsock.c:48-164 | A partial read or write keeps every message whole and in order, and brings the exchange forward. |
| ChannelSteps.Channel.Complete | miniftpd/src/privparent.c:51-93 | A handler runs only when exactly one command has been read, and with the port and address that were sent. |
| ChannelSteps.Channel.FinishCall | miniftpd/src/ftpproto.c:542-597 | When a call has its answer, nothing is left in either direction. |
| ChannelSteps.Channel.NeverStuck | miniftpd/src/privsock.c:48-164 | Until every call has its answer, one of the two processes can go on. |
| ChannelSteps.Run | miniftpd/src/privsock.c:48-164 | For any sequence of commands, any answers of the system, any schedule of the two processes and any partial reads and writes, the answers and the connections are those of whole messages. |
| ChannelSteps.Channel.Step | miniftpd/src/privsock.c:48-164 | Every step that is possible brings the current call forward, so a call takes only finitely many. |
| ChannelSteps.RunToEnd | miniftpd/src/privsock.c:48-164 | After any schedule, whichever possible step is taken each time, every call gets its answer, and nothing is left in the channel. |
| ConnPool.Mgr.constructor | linux_high_performance/springsnail/mgr.cpp:40-76 | The pool starts with exactly the connections that could be made, all idle. |
| ConnPool.Mgr.ExactlyOnePlace | linux_high_performance/springsnail/mgr.cpp:40-312 | Every known connection is in exactly one of m_conns, m_used and m_freed. |
| ConnPool.Mgr.UsedConnCount | linux_high_performance/springsnail/mgr.cpp:82-85 | get_used_conn_cnt is twice the number of active pairs. |
| ConnPool.FirstKey | linux_high_performance/springsnail/mgr.cpp:95-97 | begin() of a map is its smallest key. |
| ConnPool.Mgr.PickConn | linux_high_performance/springsnail/mgr.cpp:87-110 | A client gets the idle connection with the smallest descriptor, and null exactly when there is none; entries that are already there are not replaced, and a consistent pool stays consistent. |
| ConnPool.Mgr.FreeConn | linux_high_performance/springsnail/mgr.cpp:112-122 | An active connection leaves m_used completely and enters m_freed under a key that was free, with its client descriptor and closed flag cleared. |
| ConnPool.Mgr.RecycleConns | linux_high_performance/springsnail/mgr.cpp:124-148 | Every broken connection is idle under its new descriptor, or dropped exactly when its reconnect failed; idle and active ones stay, and nothing else becomes idle or open. |
| ConnPool.Mgr.Process | linux_high_performance/springsnail/mgr.cpp:150-312 | Frees exactly on a failed client side, or on a client event after the server side failed, and changes nothing else; the pool stays consistent if and only if the descriptor was registered. |
| ConnPool.StrayEvent | linux_high_performance/springsnail/mgr.cpp:87-155 | After an event for an unregistered descriptor, a client that gets this descriptor is bound without an entry, and all its events lead to nothing. |
| ConnRuns.Run | linux_high_performance/springsnail/mgr.cpp:40-312 | Over any run of clients, events and reconnects the three maps hold exactly what a pool of idle, paired and broken descriptors says; every connection is in exactly one place and get_used_conn_cnt is twice the number of active pairs. |
| ConnRuns.Serve | linux_high_performance/springsnail/mgr.cpp:87-312 | One client, event or reconnect does to the maps what it does to that pool. |
| ConnRuns.ServersKept | linux_high_performance/springsnail/mgr.cpp:87-148 | Connections only go from one place to another: no server descriptor comes or goes except that reconnects exchange all broken ones for those given by the system. |
| ConnRuns.ConnectsIff | linux_high_performance/springsnail/mgr.cpp:87-110 | A new client is turned away if and only if nothing is idle, and otherwise gets the idle server with the smallest descriptor. |
| ConnRuns.BoundIff | linux_high_performance/springsnail/mgr.cpp:150-312 | A client is bound exactly from the event that gave it a connection until a read or write of its own that fails, or any one after its server has failed. |
| Relay.Direction.Read | linux_high_performance/springsnail/conn.cpp:54-113 | What is taken from a socket is exactly what is added to the buffer: all that the recvs let through, that has arrived and that fits, with the return code of the answer that ended it. |
| Relay.Direction.Write | linux_high_performance/springsnail/conn.cpp:115-175 | What is given to a socket is exactly the next bytes of the buffer: all that the sends let through, with the return code of the answer that ended it; BUFFER_EMPTY if and only if nothing is left. |
| Relay.Direction.Reset | linux_high_performance/springsnail/conn.cpp:42-52 | A reset leaves an empty, zeroed buffer. |
| Relay.Pair.Handle | linux_high_performance/springsnail/mgr.cpp:157-306 | A readiness event moves exactly the one direction that it is about, as far as the system lets it, and keeps both streams conserved; the pair is given up exactly on a client event with a failure on either side. |
| Relay.Pair.NothingLost | linux_high_performance/springsnail/conn.cpp:54-175 | In both directions, bytes sent, bytes buffered and bytes not yet received are together the bytes of the sender, in order. |
| Relay.Run | linux_high_performance/springsnail/conn.cpp:54-175 | For any interleaving of events with any partial results, in both directions the bytes at the other side, in the buffer and not yet received are together those that were sent. |
| ThreadPool.Pool.Push | linux_high_performance/15/15-3threadpool.h:71-84 | A request is accepted if and only if the queue is not above the limit at the push, and is then its last element. |
| ThreadPool.Pool.QueueNotEmpty | linux_high_performance/15/15-3threadpool.h:98-104 | A worker that has waited finds a request: the branch for an empty queue is unreachable. |
| ThreadPool.Pool.Pop | linux_high_performance/15/15-3threadpool.h:100-107 | What is popped is the oldest accepted request not popped yet. |
| ThreadPool.Pool.Process | linux_high_performance/15/15-3threadpool.h:108-112 | A popped request is processed once unless it is null. |
| ThreadPool.Pool.Step | linux_high_performance/15/15-3threadpool.h:71-114 | Whichever thread is scheduled: where its step leads from each program point, what it does to queue, semaphore and mutex, and that a request a worker has popped is processed next unless it is null; requests leave in order, each once, and the queue length stays the semaphore value plus pushes not posted plus waits not popped. |
| ThreadPool.Pool.AppenderStep | linux_high_performance/15/15-3threadpool.h:71-84 | A step of append: where it leads, and what it does to queue, semaphore and mutex. |
| ThreadPool.Pool.WorkerStep | linux_high_performance/15/15-3threadpool.h:93-114 | A step of a worker: where it leads, and what it pops, finishes and processes. |
| ThreadPool.Pool.SomeoneCanStep | linux_high_performance/15/15-3threadpool.h:71-114 | Some thread can go on unless all of them rest. |
| ThreadPool.Pool.NoLostWakeup | linux_high_performance/15/15-3threadpool.h:71-114 | When all threads rest and a worker is waiting, every accepted request has been finished exactly as often as it was accepted. |
| ThreadPool.Settle | linux_high_performance/15/15-3threadpool.h:71-114 | Without new calls of append the pool comes to rest, whichever thread is picked each time, and then every accepted request has been processed as often as it was accepted. |
| ThreadPool.ProcessedOccurrences | linux_high_performance/15/15-3threadpool.h:108-112 | A request is processed as often as it was finished. |
| ThreadPool.Run | linux_high_performance/15/15-3threadpool.h:33-114 | For any number of workers and appenders and any schedule no request is processed more often than accepted; creation fails exactly for a non-positive size. |
| ThreadPool.RunToRest | linux_high_performance/15/15-3threadpool.h:33-114 | The same from the start, after any schedule: no request is lost. |
| Dispatcher.ProcessPool.FirstAlive | linux_high_performance/15/15-1processpool.h:307-316 | The do-while loop always ends, at the first live child cyclically from the counter or back at a dead one when all are dead. |
| Dispatcher.NextAliveIff | linux_high_performance/15/15-1processpool.h:318-322 | No child is found if and only if all are dead. |
| Dispatcher.AliveIff | linux_high_performance/15/15-1processpool.h:344-369 | After any events a child is alive if and only if it was and its process number has not been reaped. |
| Dispatcher.ConnectionServed | linux_high_performance/15/15-1processpool.h:305-369 | Every connection is served by the first child behind the one served last that has not been reaped, and is not served if and only if all have been. |
| Dispatcher.ReapedNotServed | linux_high_performance/15/15-1processpool.h:305-369 | After a child was reaped no connection is given to it. |
| Dispatcher.ProcessPool.Dispatch | linux_high_performance/15/15-1processpool.h:305-328 | The connection goes to that child and the counter moves behind it; without a live child the parent stops. |
| Dispatcher.ProcessPool.Reap | linux_high_performance/15/15-1processpool.h:344-369 | Exactly the children among the ended processes are marked, and the parent stops if and only if none is left. |
| Dispatcher.DeadStayDead | linux_high_performance/15/15-1processpool.h:350-357 | A dead child gets no connection any more. |
| Dispatcher.TurnsIncrease | linux_high_performance/15/15-1processpool.h:305-328 | Counting turns without the wrap-around, the turns served go up. |
| Dispatcher.SkippedMeansDead | linux_high_performance/15/15-1processpool.h:305-328 | A turn that was passed over belongs to a child that is dead and never served again. |
| Dispatcher.BoundedWait | linux_high_performance/15/15-1processpool.h:305-369 | A child that stays alive is served within as many connections as there are children. |
| Dispatcher.EqualShares | linux_high_performance/15/15-1processpool.h:305-369 | Between two connections in a row for one child, every child that stays alive up to the second of them gets exactly one. |
| Dispatcher.RunParent | linux_high_performance/15/15-1processpool.h:293-369 | Over every sequence of connections and deaths the loop serves exactly the children of those turns, marks exactly those children whose process was reaped, and stops if and only if something happened and no child is left. |
| SysUtil.LineLength | miniftpd/src/sysutil.c:427-437 | The length of the first line, and none exactly when there is no newline. |
| SysUtil.ControlSocket.Readline | miniftpd/src/sysutil.c:411-451 | For every peek and short-read pattern a positive answer means that exactly the stream through its first newline was taken and stored; without a failing peek it comes if and only if that line fits. It is the number of bytes behind those that the earlier peeks have shown, and the length of the line if and only if the first peek could see all of it. |
| SysUtil.LinesSplit | miniftpd/src/sysutil.c:411-451 | The lines and the tail are the stream cut behind every newline. |
| SysUtil.LinesOfConcat | miniftpd/src/sysutil.c:411-451 | Any lines and a tail without newline, put together, are read back. |
| SysUtil.ReadCommands | miniftpd/src/ftpproto.c:205-217 | Repeated calls give the newline split of the stream for every pattern of arrival, all of it if and only if every line fits. |
| RateLimit.Session.LimitRate | miniftpd/src/ftpproto.c:342-393 | Measures the elapsed time, sleeps the pause of the formula and restarts the clock; a limit of 0 divides by zero, and nothing else does. |
| RateLimit.Elapsed | miniftpd/src/ftpproto.c:348-358 | The time charged is always positive. |
| RateLimit.ElapsedMeasures | miniftpd/src/ftpproto.c:348-358 | The time charged is that between two readings, in seconds of 1000000 microseconds; consecutive times add up, and a clock that has not gone on counts as 10 ms. |
| RateLimit.RateWraps | miniftpd/src/ftpproto.c:360-361 | The rate is the whole number of bytes per second, less a multiple of 2^32. |
| RateLimit.PauseIs | miniftpd/src/ftpproto.c:363-389 | A chunk at q times the limit, rounded down, takes q times as long with its pause, and is not paused below the limit. |
| RateLimit.AllCatchableIff | miniftpd/src/ftpproto.c:361-389 | A transfer is not too fast if and only if no chunk of it is, each timed from the end of the one before. |
| RateLimit.SlowedBounds | miniftpd/src/ftpproto.c:361-389 | A chunk slowed down with integer ratio q runs at no less than the limit and below (q+1)/q of it. |
| RateLimit.ChunkBound | miniftpd/src/ftpproto.c:361-389 | A chunk stays below twice the limit if and only if its speed fits an unsigned int or is below twice the limit anyway; for a limit of at most 2^31 exactly when it fits. |
| RateLimit.FactorIsSharp | miniftpd/src/ftpproto.c:373-390 | The factor (q+1)/q is sharp: for each limit, ratio, chunk size and smaller factor there is a time in which a chunk of that size is at least that many times as fast as the limit. |
| RateLimit.WrappedRateEscapes | miniftpd/src/ftpproto.c:361-389 | Every other chunk is at least twice as fast as the limit, even when it is paused, because the pause is meant for the speed that is left after the wrap-around. |
| RateLimit.WrappedRateExists | miniftpd/src/ftpproto.c:361-389 | One such chunk: 64 KiB within 15 microseconds under a limit of 10000 is paused, and charged the time of 1112 bytes. |
| RateLimit.RateBound | miniftpd/src/ftpproto.c:474-502 | Any number of chunks that are not too fast stays below twice the limit over the time charged. |
| RateLimit.SleepsWellIff | miniftpd/src/sysutil.c:677-692 | The assumption on the clock is one on every chunk alone: time passes while it is moved, and its sleep is not too short. |
| RateLimit.WallClockBound | miniftpd/src/ftpproto.c:342-393 | If the clock goes on during a chunk and no sleep is too short, a transfer stays below twice the limit on the clock as well. |
| RateLimit.Session.Upload | miniftpd/src/ftpproto.c:472-502 | The upload loop writes exactly the chunks before an abort, takes exactly the elapsed times and pauses of all chunks up to it, and so stays below twice the limit. |
| RateLimit.Session.Download | miniftpd/src/ftpproto.c:925-950 | The download loop sends chunks of at most 4096 bytes of the file from the offset on, takes exactly their elapsed times and pauses, stays below twice the limit, and is complete if and only if it sent all of that. |
| Accounting.Server.HandleIpCount | miniftpd/src/main.c:261-284 | Counts one more connection of an address, from nothing if there was none. |
| Accounting.Server.DropIpCount | miniftpd/src/main.c:287-311 | Counts one less, and removes the entry exactly when it reaches zero. |
| Accounting.Server.Accept | miniftpd/src/main.c:175-228 | A turn of the accept loop in which any children are reaped between the count and the entry: the tables agree afterwards if and only if they agreed before and the new child is not among these; otherwise there is one stale entry more. The session starts if and only if the counts are within the limits. |
| Accounting.Server.ReapOne | miniftpd/src/main.c:239-250 | One answer of waitpid takes a known child out of all tables, and only lowers s_children for an unknown one. |
| Accounting.Server.HandleSigchld | miniftpd/src/main.c:231-252 | Between accepts, reaping removes exactly the ended children from all three tables. |
| Accounting.Server.ValidIff | miniftpd/src/main.c:173-252 | The tables agree with each other if and only if there is no stale entry. |
| Accounting.Server.CountIs | miniftpd/src/main.c:261-311 | The count of an address is the number of its live children plus that of its stale entries. |
| Accounting.StaleStays | miniftpd/src/main.c:197-203 | A child reaped before its entry is added leaves an entry that stays over every later run. |
| Accounting.LiveIff | miniftpd/src/main.c:173-252 | After any events the live children are exactly those that were forked and not reaped since, each with the address of its connection. |
| Accounting.StaleIff | miniftpd/src/main.c:197-203 | The stale entries are exactly those of children reaped before their entry was added. |
| Accounting.Run | miniftpd/src/main.c:173-252 | Over every run s_children is the number of live children and every address count the number of its live children and stale entries, with no zero entries; the table of process numbers has exactly these, and all agree if and only if no child was reaped too early. |
| TalkServer.Server.IndexOfLive | linux_high_performance/13/13-4shm_talk_server.cpp:290-330 | For a live process sub_process is the index of its user. |
| TalkServer.StaysIndexed | linux_high_performance/13/13-4shm_talk_server.cpp:321-330 | Moving the last user into the gap keeps the index of every remaining user right, also when the user who leaves is the last. |
| TalkServer.Server.Accept | linux_high_performance/13/13-4shm_talk_server.cpp:256-293 | A user is added at the end, and turned away if and only if the table is full. |
| TalkServer.Server.Reap | linux_high_performance/13/13-4shm_talk_server.cpp:318-332 | Removing by moving the last user into the gap keeps every other user and every index; the entry of the dead process is cleared if and only if it was not the last. |

## Left out

- Sockets, epoll registration, `fork`, signal delivery, `mmap`, `printf` and logging; their results are parameters.
- Interrupted calls that are simply repeated (EINTR, a `write` of 0 bytes), and I/O errors of `readn` and `writen`, which end the process.
- Request bodies, `do_request`, `write` and `process_write` of `15-5http_conn.cpp`, and `m_version`; the model stops when a body is awaited, because from there on the outcome depends on how the input is cut.
- Overflow inside `atol`: `HttpConn` computes the number without bound and then cuts it to 32 bits.
- Request headers of `8-3httpparser.cpp` other than the blank line only lead to output and have no effect in the model.
- Destructors and freed memory: the containers forget a deleted timer, and nothing is said about later use of it.
- TimerHeap.TimeHeap.AddTimer: not for a capacity of 0, where the source writes outside the array; likewise TimerHeap.TimeHeap.Tick and TimerEquivalence.RunBoth.
- TalkServer.Server.Accept: not for process numbers from 65536 on, where the source writes outside its table.
- The clock inside `tick`: `SortedTimerList` and `TimerHeap` take the time as an argument; callbacks only write to a log and do not call back into the container.
- `Unlink`, `Insert` and similar methods of the timer models are parts of the source's longer functions, split for readability.
- Termination of threads and `m_stop` of the thread pool: the test is a step, but nothing sets it, since the destructor frees the pool under its workers.
- The output of `Storage::display`, and the pauses in `produce` and `consume`.
- `FtpTransfer.Session.DoPort`: takes the parsed address; `sscanf` and its failures are not modelled.
- `FtpTransfer` passes whole messages, and a listener that cannot be opened ends the process; `ChannelSteps` shows that partly written messages make no difference.
- epoll interest sets and liveness of `mgr::process`; `mgr` also never frees dropped connections.
- `ConnPool.Mgr.RecycleConns`: empties the map of broken connections before the loop instead of behind it, which nothing in between can observe.
- The buffers of a connection are in `Relay`, its place in the maps is in `ConnPool`; the two client and server copies of reading and writing are one class used twice.
- SIGTERM handling and the child side of `15-1processpool.h` and `13-4shm_talk_server.cpp`, and the shared memory slots of the latter, which are not disjoint after a user has moved.
- Rounding of `double` in `limit_rate`, whose time is real here, a failing `gettimeofday`, and failing writes in the two transfer loops, which end them.
- `hash.c`: its tables are finite maps.
- SIGCHLD inside the updates of a table, and anywhere in the accept loop but between the count and the entry.
- Accounting.Run: not for runs that give a process number again while its stale entry is there; the hash table then keeps the old entry.
- RateLimit.FactorIsSharp: the time is any real number, while the clock counts whole microseconds.
- `str.c`, `parseconf.c`, `get_most_free_srv`, `statbuf_get_perms`, `miniftpd/ftp`, the CGI pools and the demos of the other chapters, which would only add easy members.
