# Remote PLE rows: a verified model

The repository keeps a large n-gram embedding table in the memory of peer machines and gathers
rows of it over TCP. This project models that path and proves properties of it in Dafny:

* the client (`client/ple_remote.py`): partition the ids, send every request, drain several sockets
  in arrival order, reissue what a transport fault left open, scatter the rows back;
* the row server (`server/rowserverd.c`): its byte-stream loop, its gather, its page-cache sweep and
  the counters its threads share;
* the exporter (`tools/ple_export_half.py`) that cuts a checkpoint with shards in any order into the
  flat files the servers map;
* the interval arithmetic of the trace tools (`bench/trace_gaps.py`, `bench/trace_summary.py`).

`dafny verify dfyconfig.toml` checks everything.

## How it fits together

`Protocol.Serve` is the reference: what a server writes for a stream of request bytes, message by
message. The server is proved to write exactly that, however the stream is cut into reads and writes
(`RowServer.ServeConn`). The client is proved against connections that deliver exactly that, cut
into pieces, delayed, stalled, reset or closed as an adversary likes (`Network.Net`, whose `fate` is
an arbitrary function, so that a proof covers every schedule). `Documented` says the same of both
ends in the numbers of `docs/protocol.md`. `RowServer.WritesWhatTheClientReads` is the bridge:
whatever part of a client's requests reached the serving loop and whatever failed on the way, the
bytes written are a prefix of those the client is proved to read. That a client has sent whole
requests and no others is part of what it keeps at every point where it waits for bytes, so the
bridge applies to its own sockets (`EndToEnd.ServedByTheLoop`). `EndToEnd` exports the parts of a
split, runs a server on each and lets a client open and gather.

The main results:

1. `Tables.Table.Gather`: whenever a gather returns, row j of the result is the row of `ids[j]`, under
   every schedule of faults; an error comes out only for a listed reason, in time, after the fault
   budget is used up; a refused gather has sent nothing; a failed table stays failed. And it does
   return, for proper ids on a table whose addresses keep their ranges, if at most two faults are met
   and the delays of its calls and the pauses due leave time, or if no call fails at all.
2. `Exchanges.Exchanger.Exchange`: no peer is asked more than three times nor more often than one plus
   the faults met, always for the same ids; it is over by the deadline, with its rows or without,
   unless a last reconnect began with less than 1 ms left and outlasted it, and that ends in an error.
   Its time goes into calls, no more than the schedule delays them, and into pauses of half a second,
   twice as long each time and five seconds at most, one for every refused dial; every fault is a call
   that fails even one who waits for the whole socket timeout, unless the deadline cut it short.
3. `RowServer.ServeConn`: for every input and every way of cutting it up, the server's output is that
   of the reference, and it stops only at a fault, a stall inside a message, the end of the stream or
   a message there is no reading past. `Documented.ServesAsDocumented` holds the reference against the
   documented layout, byte by byte and status by status.
4. `Sweep.Daemon.RechargeMap` and `Sweep.FullSweep`: no exit leaves a page cold that was warm, at
   any moment only pages of the slice last dropped are cold, none before the first drop, and after a
   full sweep a page is charged elsewhere exactly if it was before and gathers read it between the
   two drops of its own slice, a condition on the schedule of gathers and the log of drops alone.
5. `Slots.AlwaysBounded`: over every interleaving there are never more threads than slots nor two
   sweeps at once.
6. `Exporter.IterRange`, `Exporter.DigestRange`: the bytes are the logical rows for any placement of
   the shards, and the streamed digest is the digest of the flat file.
7. `EndToEnd.GatherFromCheckpoint`: take a sound checkpoint, export any split that tiles the table,
   serve the parts from any addresses, open a client on them and gather under any fault schedule: what
   it gets for id r is row `r % 2500012` of shard `r / 2500012`. If the servers are where they should be,
   only faults, the deadlines or its own arguments can keep it from getting them.
8. `Intervals.TraceGaps`, `Intervals.UnionDuration`: the sweep-line results are the brute-force ones for
   every list of spans without unsheltered inside-out ones, with one of those the totals are wrong, and
   of every list it is known whether the tool divides by zero.

## Where code and documentation differ, and what is false

* `docs/protocol.md:61-62` says that a non-zero status leaves the connection usable. The code closes
  after a bad header, after a request too long to drain, after a drain that breaks and after the
  out-of-memory reply. The model follows the code: `Protocol.ServeRequests` says exactly which
  messages leave the stream open, those with a bad magic number or version included, and
  `Protocol.SomeRepliesAreTheLast` has two that do not.
* A gather that races a sweep between `madvise` and `posix_fadvise` keeps its page from being evicted,
  so "every page of a finished sweep is charged to the daemon" is false: `Sweep.OnePageSpared` runs a
  sweep of one page for which it fails. `Sweep.FullSweep` gives the exact condition.
* The unsigned compare in `gather_rows` is wrong for ranges that end past 2^32.
  `RowServer.OneCompareIsExactIff` shows that the startup bound is what makes it right.
* "A gather is over by its deadline" is false, because `_connect` never waits less than 1 ms.
  `Exchanges.LateExchange` is a gather that is not. `Exchanges.Exchanger.Exchange` says exactly
  when: it is late if and only if its last call was a connect that began by the deadline and was due
  to take, 1 ms or its own timeout at the most, longer than there was left (`Outlasted`). Then it is
  at most 1 ms late, it has met a fault (or the socket timeout is 0) and it ends in `OSError`: rows
  are never returned late. A caller who knows the schedule can tell beforehand that a first send
  that breaks with less than 1 ms left, followed by a slow refusal, makes it late (`Doomed`).
* `trace_gaps.py` divides by the wall time, which can be 0 (`Intervals.ZeroWall`). `Intervals.TraceGaps`
  says for every trace when it is: if and only if the last end is the first start, where the last end is
  the greatest of a proper span, or that of the newest span if that one is inside-out and unsheltered.
  Without unsheltered inside-out spans this means that all proper spans are the same empty instant.
* Nothing checks that a span ends after it begins. An inside-out span that begins while another is
  still running does no harm; one that does not is merged as a block of negative length and breaks
  the totals; one such span is enough (`Intervals.NotTame`). `Intervals.UnionDuration` says by how
  much, and that the result is right if and only if there is none (`Intervals.Tame`);
  `Intervals.TraceGaps` says the same of its balance of busy and idle time.
* A `req_id` that does not echo is fatal (`docs/protocol.md:124-126`); against servers that behave it
  cannot happen, which is part of `Tables.Table.Gather`.

## Reading the model

Time is whole microseconds (client) or milliseconds (sweep). A call fails if the adversary breaks it
or delays it for longer than the caller waits (`Network.Fails`). A fault is counted for every send,
read and select that fails and for a connection to a server thread out of memory. Refused connects
are not counted; they use up time. The counters a contract speaks of are a `Book`; `Network.Fairly`
ties what they show to the schedule. A `World` lists for every address the servers that may answer
there, one or another at each connect, and it is honest if each holds the right bytes for the range
it announces (`Network.HonestWorld`; `EndToEnd.Deploy` builds one from exported files). Servers at
one address may have different ranges, and a table is `Steady` if those of its addresses have not.
The kernel calls of the sweep follow `docs/protocol.md:138-152` at page granularity, may fail at any
point, and may be preceded by any gathers of other threads.

## Model

| member | source | states |
|---|---|---|
| Bytes.ValueOfLE | server/rowserverd.c:233-256 | reading back a little-endian field gives the number written, if it fits |
| Bytes.WordsRoundTrip | client/ple_remote.py:183 | an id array read back from the wire is the id array, whatever follows it |
| Bytes.ReadWordsAt | server/rowserverd.c:535 | the i-th id is the four bytes at 4 * i |
| Wire.RawHeaderRoundTrip | server/rowserverd.c:621-625 | the server reads back all six fields of any request header, whatever its magic number and version |
| Wire.ReqHeaderRoundTrip | client/ple_remote.py:193 | the server's view of a packed request header is what the client packed |
| Wire.RespHeaderRoundTrip | server/rowserverd.c:547-555 | the client's view of a response header is what the server wrote |
| Wire.StatRoundTrip | server/rowserverd.c:557-566 | the STAT body the client unpacks is the one the server filled in |
| Documented.ValueIsFields | server/rowserverd.c:233-241 | one, two, four and eight byte fields are little-endian: the first byte counts least |
| Documented.LowBytes | server/rowserverd.c:243-256 | writing a number into n bytes keeps it modulo 256^n |
| Documented.RequestBytes | client/ple_remote.py:191-202 | every request on the wire has magic 0x52454C50 at 0, version 1 at 4, op, argument, id and count at 5, 6, 8 and 12, and the ids from 16 on |
| Transducer.RunAppend | server/rowserverd.c:260-282 | reading a stream in two pieces, cut anywhere, is reading it whole |
| Transducer.RestIsPartial | server/rowserverd.c:603-701 | what is left unread is a suffix of the stream and not yet a message |
| Protocol.HandleStable | server/rowserverd.c:603-701 | bytes that come later do not change how a message is answered |
| Protocol.ServeMonotone | server/rowserverd.c:284-300 | the server never takes back a byte, however its input arrives |
| Protocol.HandleMessage | server/rowserverd.c:603-701 | a message is answered from its own bytes whatever follows it; with a bad magic number or version, or too many ids, it ends the stream with status 1 or 4 |
| Protocol.HandleRequest | server/rowserverd.c:603-701 | an encoded request is answered as a message and takes exactly its own bytes, or ends the stream if it is too long to read past |
| Protocol.ServeRequests | server/rowserverd.c:603-701 | any sequence of messages, under any magic number and version, gets one reply each up to the first that cannot be read past, in order, and stays open if and only if every one can; oversized requests and stray ids never shift the next header |
| Protocol.SomeRepliesAreTheLast | server/rowserverd.c:627-673 | a PING under a wrong magic number and a PING that claims more ids than are ever drained each get their status and end the stream |
| Protocol.ServeNext | server/rowserverd.c:603-701 | a request on a stream that stands at a boundary adds its own reply and leaves the stream at a boundary |
| Documented.ServesAsDocumented | server/rowserverd.c:547-577 | a whole message brings exactly its documented reply: its id, status 0, 2, 3, 4, 6 or what the sweep ended with, rows in request order out of the file, the five STAT fields or the seven RECHARGE counters, each at its offset; then the server is back at a boundary |
| Documented.EndsAsDocumented | server/rowserverd.c:627-673 | a wrong magic number or version brings status 1, more than 64 MiB of unused ids status 4, and each is the last reply |
| Documented.BrokenOffAsDocumented | server/rowserverd.c:643-673 | a stream that breaks off inside ids nobody would use is answered with status 4, inside others with nothing |
| RowServer.Conn.Read | server/rowserverd.c:266 | read(2): the next bytes of the stream, at most as many as asked for, or a reason for none |
| RowServer.Conn.Write | server/rowserverd.c:290 | write(2): a non-empty prefix goes out, or nothing does |
| RowServer.Conn.ReadFull | server/rowserverd.c:260-282 | OK exactly if all n bytes were read, and then they are the next n; a timeout is reported only with nothing read, the end only at the end |
| RowServer.Conn.WriteFull | server/rowserverd.c:284-300 | all of the buffer is written, or a proper prefix and an error |
| RowServer.Conn.Drain | server/rowserverd.c:302-313 | reads past exactly the bytes claimed, or nothing at all over the limit, or stops inside them for a reason |
| RowServer.OneCompareCoversBothEnds | server/rowserverd.c:535-541 | for a started server the one wrapped compare accepts exactly the ids it owns, and the row index is id - base |
| RowServer.OneCompareIsExactIff | server/rowserverd.c:535-541 | over all u32 ids the compare is right if and only if base + count is at most 2^32 |
| RowServer.AcceptsExactlyValid | server/rowserverd.c:889-923 | the startup checks, in wrapping u64 arithmetic, accept exactly the configurations that are valid in plain arithmetic; that is a positive row count, a range within u32 and a file of 160 bytes a row |
| RowServer.GatherRows | server/rowserverd.c:528-545 | OK exactly if every id is owned, and then the buffer holds the rows in request order; no copy leaves the table or the buffer |
| RowServer.SendResponse | server/rowserverd.c:547-555 | header and body go out as one reply, or a proper prefix of it and an error |
| RowServer.Respond | server/rowserverd.c:655-663 | after a reply the server stands at the next header boundary, or the write failed |
| RowServer.Conclude | server/rowserverd.c:627-645 | a last reply is what the reference writes last |
| RowServer.ServeGather | server/rowserverd.c:651-663 | a GATHER within the limit is answered as the reference does, or the connection ends inside it |
| RowServer.SkipIds | server/rowserverd.c:666-673 | an id array nobody will use is read past exactly, or answered with status 4 and the connection ends |
| RowServer.ServeBare | server/rowserverd.c:641-700 | PING, STAT, RECHARGE, unknown ops and oversized gathers are answered as the reference does |
| RowServer.ServeOne | server/rowserverd.c:603-701 | one turn of the loop: back at a boundary with progress made, or closed with everything owed delivered and a reason for closing; an idle timeout between requests does not close |
| RowServer.ServeConn | server/rowserverd.c:579-710 | for every stream and every way it is cut up the bytes written are the reference's for the part consumed, and for the whole stream unless the connection failed or stalled inside a message |
| RowServer.ServeStarved | server/rowserverd.c:589-601 | a thread without buffers answers one header with status 5 and nothing else |
| RowServer.CutRequest | server/rowserverd.c:302-313 | a client's request cut short is waited for; if in vain, nothing is written or just what the whole one would have brought |
| RowServer.PrefixWritesPrefix | server/rowserverd.c:603-701 | wherever a client's stream stops, what has been written is a prefix of what all of it would bring |
| RowServer.WritesWhatTheClientReads | server/rowserverd.c:603-701 | for every run of the loop on any part of a client's requests, faults and stalls included, the bytes written are a prefix of what the client's proofs assume it may read, and all of them if nothing failed; that the requests are whole is what the client keeps |
| Network.OneMoreIsWhole | client/ple_remote.py:191-202 | a connection on which only whole requests have been sent stays one with every request |
| Network.SendRequest | client/ple_remote.py:191-202 | on a connection in sync a request makes its own reply the only unread bytes |
| Network.ReadSome | client/ple_remote.py:169-174 | reading some of the unread bytes leaves exactly the others |
| Network.CalmSpends | client/ple_remote.py:153-174 | over a stretch in which no call of the schedule fails and the delays leave time, no fault is met and the deadline is not reached |
| Network.PausesJoin | client/ple_remote.py:366-378 | pauses begun anew are no longer in all than pauses carried on |
| Peers.GatherReply | server/rowserverd.c:641-663 | a GATHER of owned ids to a conforming server brings back the true rows in request order, or status 4 above the server's limit |
| Peers.TruthRowAt | client/ple_remote.py:524-526 | row i of a body is the row of the i-th id asked for |
| Peers.Peer.Connect | client/ple_remote.py:127-136 | a new connection with nothing sent or read on it, within the timeout; one that broke right after the handshake is an OSError |
| Peers.Peer.Close | client/ple_remote.py:138-151 | no socket and nothing pending afterwards |
| Network.Net.Connect | client/ple_remote.py:127-136 | a connection is a fresh one to a server of that address, or one that broke after the handshake, or none |
| Peers.Peer.Arm | client/ple_remote.py:153-167 | the socket timeout becomes exactly the smaller of the timeout and what is left of the deadline, and a passed deadline raises instead |
| Peers.Peer.Recv | client/ple_remote.py:169-174 | at least one and at most the wanted bytes of what is unread, within the deadline |
| Peers.Peer.OneCallIsFair | client/ple_remote.py:153-174 | a call under the armed timeout takes no more than its delay, and fails only if it fails one who waits for the whole timeout or if the deadline has come |
| Peers.Peer.RecvExact | client/ple_remote.py:277-284 | exactly the next bytes of the stream, or an OSError that the adversary or the deadline excuses |
| Peers.Peer.ReadHeader | client/ple_remote.py:258-275 | the header of the request last sent is accepted and pending is cleared before the status is looked at; status 5 is an OSError, other statuses are not |
| Peers.Peer.Judge | client/ple_remote.py:258-275 | of any header at all: accepted exactly with the right magic number, the pending id and status 0; out of step is fatal, only status 5 is worth another connection, and a rejection leaves nothing pending |
| Peers.Peer.QueryStat | client/ple_remote.py:242-256 | the range reported is the one the connected server has, and the connection is in sync again; one STAT has gone out under the id given and its 48 byte answer, which says what is returned, has come in |
| Peers.Peer.Reserve | client/ple_remote.py:176-186 | room for n rows: nothing changes if there is, otherwise room is made for n and at least 4096 |
| Peers.Peer.SendGather | client/ple_remote.py:191-196 | the request on the wire asks for exactly the loaded ids; what is unread is its answer, under the id given |
| Peers.Peer.BeginRows | client/ple_remote.py:210-223 | the header is consumed and the body is next, or the server's limit is smaller than the request |
| Peers.Peer.PumpRows | client/ple_remote.py:225-232 | one recv brings the body strictly closer to complete; answered exactly if it is |
| Peers.Peer.FinishRows | client/ple_remote.py:234-236 | the row buffer holds the true rows and the connection is in sync |
| Exchanges.Exchanger.NextReqId | client/ple_remote.py:428-430 | the next request id is one more, modulo 2^32 |
| Exchanges.Exchanger.Connect | client/ple_remote.py:364-378 | every dial but the last is refused and followed by its pause of 0.5, 1, 2, 4, 5, 5, ... seconds, unless the deadline comes; if some dial is answered in time it connects; it ends by the deadline plus the 1 ms floor, and fails only at the deadline |
| Exchanges.Exchanger.StillReachable | client/ple_remote.py:364-378 | whoever gets to the dial that is answered is not turned away, and whoever fails before has time left |
| Exchanges.Exchanger.CheckRange | client/ple_remote.py:380-392 | accepts exactly the range learned when the table was opened |
| Exchanges.Exchanger.Handshake | client/ple_remote.py:568-570 | a reconnected peer is in sync and serves the same range, or is refused |
| Exchanges.Exchanger.Reopen | client/ple_remote.py:566-570 | every peer left to ask is connected, in sync and not marked answered, whatever an earlier gather left behind |
| Exchanges.Exchanger.SendAll | client/ple_remote.py:571-572 | every peer is asked once, for its own ids, under consecutive request ids and in consecutive calls, before any answer is read |
| Exchanges.Exchanger.BeginAll | client/ple_remote.py:573-574 | every header is consumed before any body is waited for |
| Exchanges.TotalDrops | client/ple_remote.py:599-610 | the bytes still expected from all peers together shrink with every recv |
| Exchanges.Exchanger.PumpReady | client/ple_remote.py:608-610 | the readable sockets of one select are pumped once each and nobody else is touched |
| Exchanges.Exchanger.Drain | client/ple_remote.py:596-610 | for every readiness order and every recv size all bodies end complete, as if read one peer at a time, and no socket is read that a select has not called readable; on a fault the answered ones are complete and one is not; it fails only if a call does or the delays reach the deadline |
| Exchanges.Exchanger.DrainRound | client/ple_remote.py:599-610 | one select, and one recv for every socket it calls readable; it fails only if a call would fail one who waits for the whole timeout, or at the deadline |
| Exchanges.Exchanger.AskAndRead | client/ple_remote.py:571-578 | on open connections all requests leave back to back, then all headers come in, then all bodies |
| Exchanges.Exchanger.Attempt | client/ple_remote.py:566-581 | one attempt ends with every answer complete, or with at least one peer unanswered and no answered peer's rows lost |
| Exchanges.Exchanger.Unanswered | client/ple_remote.py:583 | what is left after a fault is never empty and holds exactly the unanswered |
| Exchanges.Exchanger.Abort | client/ple_remote.py:584-585 | every socket in doubt is gone, so nothing on it is read again |
| Exchanges.Exchanger.AttemptRest | client/ple_remote.py:582-591 | what is left only shrinks; every peer that is not left keeps its complete answer through later attempts |
| Exchanges.AskedStep | client/ple_remote.py:564-572 | every request of every attempt asks for exactly the ids of the job, only the header differs |
| Exchanges.Exchanger.Attempts | client/ple_remote.py:564-591 | at most three attempts, one more than the faults met, within the deadline or late only by a last connect that began with less than 1 ms left and outlasted it |
| Exchanges.Exchanger.Exchange | client/ple_remote.py:535-594 | every answer complete, or OSError only after three faults or at the deadline; request budget and ids hold in every case; late if and only if its last call was a connect that began by the deadline with less time left than the connect was due to take, at most 1 ms, and then it has met a fault and ends with OSError; peers' ids and ranges are untouched; on kept ranges it succeeds if at most two faults are met and delays and pauses leave time, or if nothing fails; without a fault it neither dials nor pauses, and all requests leave before any answer is read |
| Exchanges.LateExchange | client/ple_remote.py:364-378 | a gather with a second to go whose one send breaks half a millisecond before the deadline and whose reconnect is refused a millisecond later: it ends after the deadline |
| Routing.SplitExact | client/ple_remote.py:412-426 | the scan over sorted non-empty ranges accepts if and only if every row of the table has exactly one owner and no other row has any |
| Routing.OwnersPermute | client/ple_remote.py:412 | sorting the peers does not change who owns what |
| Routing.SortByKey | client/ple_remote.py:412 | sorted by first row, nothing lost |
| Common.Sorted | client/ple_remote.py:412 | any list comes out sorted by any order on its members, nothing lost |
| Routing.PositionsExact | client/ple_remote.py:467-477 | a peer's selection is exactly the positions whose id it owns, in caller order |
| Routing.RoutedExact | client/ple_remote.py:510-511 | over a split that tiles the table the routed count is n if and only if every id is a row of it |
| Routing.EveryPositionOnce | client/ple_remote.py:524-526 | every output position is in exactly one peer's selection |
| Tables.Table.Open | client/ple_remote.py:343-352 | the table is usable if every peer answered and the ranges tile it, which are ranges of servers at their addresses; otherwise every socket is closed and the error has its cause: a fault or the deadline, a split that does not tile, rows of another width; it spends its time as `Fairly` allows, in calls and due pauses |
| Tables.Table.CheckSplit | client/ple_remote.py:405-426 | passes if and only if the peers' ranges tile the table, and leaves the peers sorted |
| Tables.Table.Adopt | client/ple_remote.py:394-403 | a peer is taken on only with rows of the right width and a non-empty range |
| Tables.Table.Partition | client/ple_remote.py:457-479 | every selection is the peer's positions and within max_rows, or ValueError because one is not |
| Tables.Table.RaiseUnroutable | client/ple_remote.py:481-490 | the position reported is the first whose id is outside the table |
| Tables.Table.LoadOne | client/ple_remote.py:513-522 | the cast to u32 loses nothing: the request buffer holds the selected ids |
| Tables.Table.Scatter | client/ple_remote.py:524-526 | every peer's rows land at its positions and no other position changes |
| Tables.Table.Gather | client/ple_remote.py:492-533 | on return out[j] is the row of ids[j] for every j, for every fault schedule; ValueError if and only if one peer owns too many of the ids, otherwise IndexError if and only if an id is outside, naming the first, and both before anything is sent; failed is sticky; other errors only as `Ended` allows; no protocol error while addresses keep their ranges; and then it returns if at most two faults are met in time, or none (`Prompt`) |
| Tables.Table.ReadRowsContiguous | client/ple_remote.py:625-644 | row k of the result is row start + k, for every chunk size; as many gathers as pieces of at most max_rows take; NotUsable exactly on a failed table, IndexError only if the range leaves the table, ValueError only if max_rows is 0, other errors only as the gather that failed may end; it returns if every gather has at most two faults and time |
| Tables.Table.Ping | client/ple_remote.py:647-658 | on success exactly one PING has gone out on every connection, under consecutive ids and before any answer was read, and exactly its answer has come in; it fails if and only if a call does, and then the table is failed; on a failed table nothing is sent or read |
| Tables.Table.Stats | client/ple_remote.py:660-674 | on success exactly one STAT has gone out and one answer come in on every connection, what is returned and kept is what the answers say, each with the peer's own range; it fails if and only if a call does, and then the table is failed; on a failed table nothing is sent or read |
| Tables.Table.Close | client/ple_remote.py:676-680 | no sockets, and the table stays failed |
| Sweep.Kernel.Unmap | docs/protocol.md:141-142 | a successful call leaves nothing of the range mapped; no call takes a page out of the cache |
| Sweep.Kernel.Evict | docs/protocol.md:143-152 | evicts exactly what nobody maps; a mapped page stays and keeps its owner |
| Sweep.Kernel.Touch | docs/protocol.md:145-146 | the page is in the cache afterwards, charged to the daemon if it was not there; only addresses inside the mapping may be touched |
| Sweep.TouchChunk | server/rowserverd.c:389-390 | every page of a chunk is touched once, in order |
| Sweep.TouchRange | server/rowserverd.c:366-396 | the pages touched are exactly those of the range, each once, in order, none beyond it, and all are in the cache afterwards |
| Sweep.WarmerHasMore | server/rowserverd.c:348-352 | a later state that lost nothing has at least as many pages in the cache |
| Sweep.ResidentPages | server/rowserverd.c:328-356 | a failing call of the walk makes the count 0; otherwise it is between what was in the cache at the start and at the end of the walk, so exact if nothing changes |
| Sweep.SweepSlice | server/rowserverd.c:479-508 | whatever fails, no page is left cold; only pages of the slice are ever cold; if nothing fails every page of it is charged to the daemon but those gathers read in the one call between the two drops |
| Sweep.SweptJoin | server/rowserverd.c:479-508 | what earlier slices achieved survives later ones |
| Sweep.NextInFlight | server/rowserverd.c:479-508 | a slice that ends with nothing lost hands over to the next: what is missing at any moment is in the one dropped last |
| Sweep.SweepLoop | server/rowserverd.c:479-508 | slices tile the mapping from the bottom, none begins after 600 s, the pages spared are exactly those read between the two drops of each, and the loop stops early only for failure or time |
| Sweep.SlicesDone | server/rowserverd.c:472-507 | the slices counted equal the total exactly when the end of the mapping is reached |
| Sweep.SweepMap | server/rowserverd.c:468-512 | the report is true: pages moved, slices done and total, residency counted before the first drop and after the last slice; at every moment only pages of the slice in flight are cold; a count is 0 although pages were cached only if a call of its own walk failed |
| Sweep.Daemon.RechargeMap | server/rowserverd.c:445-524 | status 6 above 4096 MiB and 7 while sweeping, both without touching anything; otherwise the sweep above with its log of drops, only pages of the slice last dropped ever cold and none before the first drop, a failure only if a kernel call failed, and the flag released on every path; slices are of 1024 MiB for argument 0 and otherwise of as many MiB as asked for; the counts are those of their walks |
| Sweep.FullSweep | server/rowserverd.c:479-512 | after a full sweep every page is cached, pages_recharged is the page count, and a page is charged elsewhere if and only if it was before and the gathers between the unmapping and the eviction of its slice, number i / slice_pages, read it, and pages_after is the page count unless the last count itself failed |
| Sweep.SparedInItsSlice | server/rowserverd.c:479-496 | a page is spared exactly by what is read between the two drops of the one slice it is in |
| Sweep.EarlyReadsSpareNothing | server/rowserverd.c:479-496 | a page that gathers read only before the sweep or while it first counts residency belongs to the daemon afterwards |
| Sweep.NothingStopsIt | server/rowserverd.c:479-508 | a sweep in which no call fails and no time passes is a full one |
| Sweep.OnePageSpared | server/rowserverd.c:489-496 | a full sweep of one page, read in by another process and by gathers all along, leaves it charged elsewhere |
| Slots.StepKeepsSound | server/rowserverd.c:996-1016 | every atomic step keeps counter, slots and flag in order |
| Slots.AlwaysBounded | server/rowserverd.c:996-1016 | over every interleaving: never more threads than slots, never two sweeps, the flag up exactly while one runs, the counter exact whenever the accept loop rests |
| Slots.RefusedForCause | server/rowserverd.c:460-466 | status 7 only while another thread sweeps, a refused connection only while every slot is taken |
| Slots.OnlyLeaveEnds | server/rowserverd.c:679-708 | a step takes a thread out of service if and only if it is its own Leave; after a refused RECHARGE, as after a sweep, the connection is served on |
| Slots.ServedUntilLeave | server/rowserverd.c:679-708 | over every run a thread is in service until it leaves and never after |
| Slots.NothingLeaks | server/rowserverd.c:703-708 | from every reachable state, a connection half admitted or the accept loop stopped included, everyone can finish and then every slot and the flag are back |
| Exporter.Check | tools/ple_export_half.py:44-51 | passes if and only if the shards are exactly 0 to 127 and each has the right shape, type and span |
| Exporter.CheckedInNumbers | tools/ple_export_half.py:44-51 | passing means 128 entries that include 0 to 127, each 2500012 by 160 in one of the two dtypes and exactly 400001920 bytes |
| Exporter.LinesAppend | tools/ple_export_half.py:149-156 | digest lines of whole blocks and what follows can be made apart |
| Exporter.LinesTellApart | tools/ple_export_half.py:102-114 | equal digest lines mean equal bytes, as far as the hash is injective |
| Exporter.Sink.Take | tools/ple_export_half.py:149-156 | however the stream is handed over, the lines so far are those of its whole blocks and the buffer is the rest |
| Exporter.Sink.Finish | tools/ple_export_half.py:159-163 | the lines and the total are those of the whole stream |
| Exporter.DigestPlain | tools/ple_export_half.py:102-114 | the lines and the total are those of the file, block by block |
| Exporter.CopySpan | tools/ple_export_half.py:74-84 | the bytes of one shard's part come out in order for any block size, or a short read at bytes the file does not have |
| Exporter.IterRange | tools/ple_export_half.py:67-85 | the bytes handed over are the table's from row start on, for any placement of the shards; it finishes if and only if the file has all of them |
| Exporter.WhenComplete | tools/ple_export_half.py:44-51 | with a checked header and a whole file, exactly the row ranges of the table can be exported |
| Exporter.Export | tools/ple_export_half.py:164-167 | the raw output is the flat file of that range, or a true prefix and an error |
| Exporter.DigestRange | tools/ple_export_half.py:145-163 | the lines and total equal those of the plain digest of the exported file |
| EndToEnd.RowIsOneSlice | tools/ple_export_half.py:71-73 | a logical row is one slice of the checkpoint: row r % ROWS_PER_SHARD of shard r / ROWS_PER_SHARD |
| EndToEnd.ConformsIffExported | server/rowserverd.c:907-916 | a server serves the checkpoint's rows if and only if its file is that range as exported |
| EndToEnd.Publish | tools/ple_export_half.py:164-167 | an exported range passes the startup checks and serves true rows, for any shard placement and any range of the table |
| EndToEnd.PublishAll | tools/ple_export_half.py:164-167 | of a sound checkpoint and any split that tiles its table, every part can be exported and served |
| EndToEnd.Deploy | server/rowserverd.c:893-923 | servers of published parts, at whatever addresses, are an honest world: that they hold the right bytes is derived from the export |
| EndToEnd.Connect | client/ple_remote.py:331-352 | a client on such a world opens a table whose ranges are those of servers at its addresses, or says why not |
| EndToEnd.FindsTheSplit | client/ple_remote.py:405-426 | with every server where it should be the client finds exactly the split that was published |
| EndToEnd.GatherFromCheckpoint | client/ple_remote.py:492-533 | checkpoint, export, servers, client: id r brings the bytes of its shard row for any shard placement, split, assignment of servers to addresses and fault schedule; as planned, only faults, deadlines or bad arguments keep it from the caller, the deadline of the gather counted from its own start; once it gathers, as planned and with proper ids, it gets its rows with at most two faults and time enough, or if nothing fails; it does not get that far only as failing calls, delays and pauses account for |
| EndToEnd.ServedByTheLoop | server/rowserverd.c:603-701 | wherever a client waits for bytes, between gathers, for a header or within a body, the serving loop on any part of what it has sent writes nothing but what it is proved to read |
| Intervals.Sort | bench/trace_summary.py:49 | in place, sorted in tuple order, nothing lost |
| Intervals.MergeSpans | bench/trace_gaps.py:61-70 | for any spans the proper blocks are apart, cover what the spans cover and begin and end only where spans do; the others are unsheltered inside-out spans, and without those there are no others |
| Intervals.TotalIsUnits | bench/trace_summary.py:45-58 | the lengths of separate spans add up to the number of clock units covered |
| Intervals.UnionDuration | bench/trace_summary.py:45-58 | for any spans the result is the number of clock units at least one covers, less the unsheltered inside-out lengths, so it is that number if and only if there are none; the list ends up sorted |
| Intervals.GapsExact | bench/trace_gaps.py:72-76 | a gap is listed if and only if it is an idle stretch between two spans, long enough, that no span reaches into |
| Intervals.BusyAndIdle | bench/trace_gaps.py:78-79 | covered time plus all holes is last end minus first start, and with a threshold no more than that |
| Intervals.IdleIsUnits | bench/trace_gaps.py:98-101 | the brute-force sum of overlaps is the number of idle clock units a span was open in |
| Intervals.Charge | bench/trace_gaps.py:94-101 | the two pointers give exactly the sum over all gaps, and the shared one never skips a gap a later span needs |
| Intervals.Attribute | bench/trace_gaps.py:90-104 | over gaps in order every name is charged the overlaps of all its spans with all gaps and counted once per span that has any |
| Intervals.TraceGaps | bench/trace_gaps.py:56-104 | the run on any trace: with all gaps listed busy and idle add up to wall time if and only if every inside-out span is sheltered; then gaps and attribution are exact; it divides by zero if and only if the first start of the raw spans is their last end, inside-out newest spans counted with theirs, and otherwise reports the difference |
| Intervals.WallOfMerge | bench/trace_gaps.py:61-79 | the first and last block of the merge give the first start and the last end of the raw spans, in whatever order those come |
| Intervals.OneWall | bench/trace_gaps.py:79 | a trace has one wall time only |
| Intervals.ZeroWall | bench/trace_gaps.py:79-82 | two spans, one of them inside-out, with a wall time of 0 although they are not one empty instant |
| Intervals.NotTame | bench/trace_gaps.py:48-52 | a single span that ends before it begins is not sheltered |
| Intervals.StepFar | bench/trace_gaps.py:65-67 | a span that begins past the current block begins the next one, and is unsheltered if it is inside-out |
| Intervals.StepNear | bench/trace_gaps.py:68-69 | a proper span that begins within the current block extends it, an inside-out one is sheltered and changes nothing |

## Left out

- Floating-point time: the client's `time.monotonic` and the trace timestamps are whole clock units.
- Scheduler latency: a blocking call returns by its timeout exactly; the source's own bound excludes it too.
- Sockets are values inside a peer, not shared objects: the source never shares one either. DNS, TCP options and keepalive are not modelled.
- Buffers: the request and row buffers are sequences in fields that methods reassign; the memoryviews over them are not modelled. The staging buffer is an array, and its reuse by the next gather is why gathers are sequential calls.
- Locks and concurrent use of one table, and exits by KeyboardInterrupt.
- `_parse_peers` and environment variables: a table starts from distinct peers that are not connected.
- `gather` (device copies and the fp8 view), `describe` and `read_rows`: no logic beyond the members modelled.
- Exchanges.Exchanger.Exchange: `_exchange` and its helpers are methods of a class of their own that the table owns; the source has one class.
- RowServer.ServeConn: residency, the request counter and the outcome of a sweep enter replies as arbitrary values (`Aux`); what a sweep really reports is in `Sweep`.
- Sweep.Kernel.Evict: no other process reads the file or takes pages of it away during a sweep, as `docs/protocol.md:138-152` assumes. Pages change one at a time, so a gather during a call is one before or after it.
- Sweep.Daemon.RechargeMap: the page size divides 1 MiB and sizes do not wrap; the mapping is at least one byte, as the startup check ensures.
- Slots.AlwaysBounded: signals, descriptors and the lock of the residency vector are not modelled; a RECHARGE refused for its slice size never reaches the flag.
- Exporter.IterRange: a block size of 0 makes the source loop for ever and a negative one fails in `pread`; the model takes positive block sizes. Page-cache hints have no effect on the bytes. Header parsing is left out: a shard map is the input.
- Exporter.DigestRange: the hash is an arbitrary function; that hashing pieces one after the other hashes their concatenation is taken as given.
- Intervals.TraceGaps: parsing of trace events and the printed percentages are left out, as is `trace_gap_detail.py`, which repeats the merge. Of a trace with unsheltered inside-out spans it says what the wall time is, whether it is divided by 0 and that the balance is wrong; what the gaps of such a trace should be has no meaning.
- Common.Sorted: a stable insertion sort where the source calls the library.
- Logging, rate limits, option parsing, latency benches, shell scripts and service files.
