# php-fpm: a model of its FastCGI layer and of its master process

php-fpm has two parts in which mistakes are hard to see. One is the FastCGI layer of a worker: a writer that packs
output into an 8192-byte buffer with one record that is closed late, a reader that puts a byte stream together again
from padded records and short reads, and the decoding of request heads. The other is the master process: a state
machine for shutdown and reload, the supervision of workers in intrusive lists, their slots in shared memory behind a
spin lock, and the table of listening sockets that survives exec. This project models both and proves what they are for.

The code is modelled in its own form: classes whose methods update buffers, offsets, lists and counters, with loops and
their invariants; each is tied to a specification on values, and the main results are lemmas about those
specifications and invariants over whole runs. The slot lock, which two processes share, is a transition system over
single steps. What the operating system does (read, write, accept, fork, waitpid, mmap, the clock) is arbitrary within
what the system promises; where a result depends on it, as on the outcomes of fork and accept or on the finishes of
scripts, it comes in as a constant that the contracts speak of. Numbers such as `patience` only bound how often in a
row it may make no progress.

| file | what it models |
|---|---|
| Basics.dfy | bytes, optional values and two facts about sequences |
| Records.dfy | records of section 3.3, their parser, and the streams they carry |
| Transport.dfy | safe_read and safe_write over a connection that delivers and takes bytes as it likes |
| FcgiOutput.dfy | the writer, optimized and clear, and whole responses |
| FcgiInput.dfy, FcgiFraming.dfy | fcgi_read, and its independence of framing |
| FcgiParams.dfy, FcgiRequest.dfy, FcgiHead.dfy | section 3.4 pairs, reading a request's head, the GET_VALUES reply, and exactly which heads are accepted |
| FcgiExchange.dfy | head and body together, the next request on a kept connection, and a body sent by the writer and read back |
| FcgiLifecycle.dfy | accept, close and finish over every run of a worker |
| FpmArray.dfy, Shm.dfy, ShmSlots.dfy | the growing array, the shared memory allocator, the slots of a pool |
| SlotLock.dfy | the slot lock, step by step |
| ProcessCtl.dfy, Children.dfy, FaultRing.dfy, Master.dfy | control states, lists of workers, the fault ring, and the master with all of them |
| RequestTimeouts.dfy | request stages, slow log and termination |
| Stdio.dfy, Trace.dfy | the splitter of worker output, the remote string reader |
| SocketNames.dfy, Sockets.dfy | keys and types of listening sockets and the value of FPM_SOCKETS, the socket table and its way through a reload |

Six places where the code does less than one might expect are part of the results:

- The writer makes an empty record when a packet of another type would begin with at most 8 bytes left in the buffer
  and less than a buffer is to be written (`FcgiOutput.Output.Write` has the exact condition); decoding drops it.
- A script that finishes its request early on a kept connection makes the worker send END_REQUEST twice, and on a
  connection that is not kept it leaves a table behind that the next request initialises again
  (`FcgiLifecycle.Worker.Serve` has the exact condition on the history, `EndedTwice` and `TableLost` are the two shortest histories).
- The remote string reader takes the remainder of a signed pointer; for a negative pointer inside a word, as in the
  upper half of a 32-bit address space, it starts in the next word and reads below its variable (`Trace.AgreesExactly`
  has the exact condition, `Trace.NegativePointerFails` a case).
- The type of a listen address is fixed before a relative path is put behind PHP_PREFIX; a prefix with a colon gives
  the socket another type after exec (`SocketNames.TypeOfKey` has the exact condition, `SocketNames.TypeChanges` a case).
- A listen address with a comma or an equals sign does not come back from exec under its name, and what comes back can
  stand in front of another pool's socket: after `/tmp/a,/b` with descriptor 3 the pool of `/b` gets descriptor 3
  (`SocketNames.KeyComesBack` says for every table and key what comes back, `SocketNames.KeysAreCut` has cases).
- The guard of the GET_VALUES reply leaves no room for the padding: header, content and padding stay inside the buffer
  if and only if the content has at most 65528 bytes (`FcgiRequest.ReplyFits`, `FcgiRequest.OneIsNotRoomy`).

## Model

| member | source | states |
|---|---|---|
| `Records.ParseEncodeAll` | cgi/fastcgi.h:55-64 | reading encoded records by section 3.3 of the FastCGI specification consumes every byte and gives the records back |
| `Records.RecordOnTheWire` | cgi/fastcgi.h:55-64 | one record of section 3.3, byte by byte |
| `Records.JoinedIsRunsOfStream` | cgi/fastcgi.c:1086-1102 | joining same-type neighbours and dropping empty chunks depends only on the tagged byte stream, so two ways of cutting one stream decode alike |
| `Transport.SafeWrite` | cgi/fastcgi.c:557-583 | under any schedule of short writes and EINTR a prefix of the data is sent; all of it exactly when the count is returned, and that fails only at a hard error |
| `Transport.SafeRead` | cgi/fastcgi.c:585-613 | under any schedule the bytes taken are the next ones of the peer, as many as asked for unless the stream ends; the result is negative exactly after a hard error, which costs fewer bytes than were asked for |
| `FcgiOutput.MakeHeader` | cgi/fastcgi.c:615-631 | a header that decodes to type, id and length, zeros behind the content up to a multiple of 8, and no other byte changed, before or behind them |
| `FcgiOutput.MadeSize` | cgi/fastcgi.c:615-631 | every record the writer makes is a multiple of 8 bytes long |
| `FcgiOutput.EndOnTheWire` | cgi/fastcgi.c:1112-1122 | END_REQUEST, byte by byte, but for its three reserved bytes |
| `FcgiOutput.Output.OpenPacket` | cgi/fastcgi.c:1086-1092 | a packet begins at a multiple of 8 with room for its header, and what is buffered before stays |
| `FcgiOutput.Output.ClosePacket` | cgi/fastcgi.c:1094-1102 | the open packet becomes one finished record with the same stream; wire and buffer still carry what was written |
| `FcgiOutput.Output.Flush` | cgi/fastcgi.c:1104-1131 | what was buffered is on the wire and the buffer is empty, or keep-alive is given up; with `close` one END_REQUEST follows inside the reserved tail |
| `FcgiOutput.Output.MakeEndRequest` | cgi/fastcgi.c:1112-1122 | section 5.5: status 0, FCGI_REQUEST_COMPLETE, within the 8208 bytes of buffer and reserve |
| `FcgiOutput.Output.Write` | cgi/fastcgi.c:1133-1143 | all of the input joins what was written, an open packet stays non-empty and below 8192; an empty record arises exactly when a packet of another type would begin with at most 8 bytes left |
| `FcgiOutput.Output.WriteOn` | cgi/fastcgi.c:1174-1243 | in all three size regimes all of the input joins what was written, an open packet stays non-empty and below 8192, and exactly one condition makes an empty record |
| `FcgiOutput.Output.WriteAcross` | cgi/fastcgi.c:1187-1202 | filling, flushing and beginning anew loses and reorders nothing |
| `FcgiOutput.Output.WriteDirect` | cgi/fastcgi.c:1203-1240 | with input of a buffer's size or more, records sent past the buffer and what is left in it join all of the input to what was written, and none is empty |
| `FcgiOutput.Output.WriteClear` | cgi/fastcgi.c:1144-1172 | the reference writer: all of the input joins what was written |
| `FcgiOutput.RefinesClear` | cgi/fastcgi.c:1144-1240 | from any two valid buffers with the same contents both writers, flushed, put bytes on the wire that decode to what was buffered followed by all of the input, and both return its length, unless a write failed |
| `FcgiOutput.Respond` | cgi/fastcgi.c:1086-1243 | every run of writes and flushes with a closing flush, in which no write failed: the wire parses completely to what was written, in order, and one END_REQUEST; without an empty record if types change only behind flushes |
| `FcgiInput.Input.Read` | cgi/fastcgi.c:845-896 | for every byte the peer may send and every schedule, unless a read fails: result, stored bytes, in_len, in_pad and keep-alive; a read that fails always gives up keep-alive, and a result that is not negative, with in_len and in_pad, is then that of a stream which ended early |
| `FcgiInput.Input.ReadContent` | cgi/fastcgi.c:867-893 | content never runs past the current record or the caller's wish; padding is consumed right behind the last byte |
| `FcgiFraming.ReadFramed` | cgi/fastcgi.c:845-896 | over any well-formed STDIN records a read delivers the next payload bytes and stands where they end; a read past the end leaves what follows the body untouched; one past a record of another type stores the payload, returns 0 and gives up keep-alive |
| `FcgiFraming.BodyOnTheWire` | cgi/fastcgi.c:845-896 | one body, byte by byte, and what a read of it delivers |
| `FcgiFraming.CutOff` | cgi/fastcgi.c:845-896 | of a stream that ends inside content what is there is delivered; inside padding, inside a header or in front of one keep-alive is given up, and the result counts this record's bytes only, or is 0 |
| `FcgiFraming.HeaderRefused` | cgi/fastcgi.c:852-858 | a header of an unknown version or another type: the read returns 0 and gives up keep-alive |
| `FcgiFraming.ReadManyFramed` | cgi/fastcgi.c:845-896 | any sequence of read sizes up to the first short result concatenates to the payload prefix of length min(sum, total) |
| `FcgiFraming.WrittenReadsBack` | cgi/fastcgi.c:1133-1243 | what the writer sends as one stream, framed as STDIN, is read back unchanged by any read sizes |
| `FcgiParams.LengthsOnTheWire` | cgi/fastcgi.c:641-656 | lengths byte by byte: one byte below 128, otherwise four with the first bit set, high byte first |
| `FcgiParams.LastWins` | cgi/fastcgi.c:669-670 | of several pairs with a name the last one counts; other names keep their values |
| `FcgiParams.SplitEncoded` | cgi/fastcgi.c:633-677 | decoding inverts every encoding of every list of pairs with lengths below 2^31 |
| `FcgiParams.SplitIsLongestPrefix` | cgi/fastcgi.c:633-677 | for all bytes: the pairs delivered are complete pairs at the front, and what follows does not begin with one |
| `FcgiParams.AcceptsExactly` | cgi/fastcgi.c:641-662 | accepted if and only if the bytes are a concatenation of complete section 3.4 pairs |
| `FcgiRequest.WrapRejectsExactly` | cgi/fastcgi.c:657-662 | the test on the wrapped 32-bit sum rejects exactly the pairs that do not fit |
| `FcgiRequest.PairInBuffer` | cgi/fastcgi.c:642-662 | lengths that are partly read from the slack behind the data never make an incomplete pair acceptable |
| `FcgiRequest.GetParams` | cgi/fastcgi.c:633-677 | true exactly for complete pairs, the table is the fold of the complete ones, and at most 7 bytes behind the data are looked at |
| `FcgiRequest.Answer` | cgi/fastcgi.c:795-829 | for any variables the reply holds the encodings of the known ones asked for, in order, up to where the guard stops |
| `FcgiRequest.FittingFits` | cgi/fastcgi.c:807-809 | the pairs before the stop of the guard fit into the buffer, and at the stop the room set aside for the next one is not there |
| `FcgiRequest.NeverFull` | cgi/fastcgi.c:807-809 | with the few variables the program registers the guard never trips and the content stays below 3025 bytes, whatever is asked |
| `FcgiRequest.ReplyFits` | cgi/fastcgi.c:830-832 | for any variables and names the encoded reply stays inside the buffer if and only if its content has at most 65528 bytes |
| `FcgiRequest.OneIsNotRoomy` | cgi/fastcgi.c:807-832 | one variable with a value of 65525 bytes passes the guard, and its reply does not fit with its padding |
| `FcgiRequest.TotalIsRoomy` | cgi/fastcgi.c:807-832 | every reply stays inside the buffer when the encodings of all registered variables together have at most 65528 bytes |
| `FcgiRequest.ReplyOnTheWire` | cgi/fastcgi.c:830-834 | the header of the reply, byte by byte, and its content behind it |
| `FcgiRequest.ReplyRoundTrip` | cgi/fastcgi.c:810-834 | for any variables a peer that parses the reply and its pairs finds exactly the known ones it asked for, up to where the guard stops |
| `FcgiRequest.Request.ReadRequest` | cgi/fastcgi.c:684-843 | for every byte stream: what is accepted has id, keep flag, table and remaining bytes as specified, on any connection, and when no read failed exactly the specified streams are accepted; the role in the table is the one that the role bytes stand for; only a well-formed GET_VALUES record is answered, with the right record; for all variables whose replies stay inside the buffer |
| `FcgiRequest.RoleIsTold` | cgi/fastcgi.c:722-743 | of any accepted stream: the role bytes are 0 and 1, 2 or 3, and unless a pair has that name the table has FCGI_ROLE as the bytes of RESPONDER, AUTHORIZER or FILTER accordingly |
| `FcgiRequest.Request.ReadParams` | cgi/fastcgi.c:745-775 | on any connection success means that each PARAMS record is folded into the table and the record that ends them is the last thing read; when no read failed it succeeds exactly for such streams |
| `FcgiRequest.Request.SendReply` | cgi/fastcgi.c:795-838 | one GET_VALUES_RESULT record with id 0 goes out, whenever it stays inside the buffer, unless a write failed |
| `FcgiHead.AcceptsShape` | cgi/fastcgi.c:684-843 | every well-formed request, given by its bytes, is accepted with the table it stands for, and nothing behind it is read |
| `FcgiHead.AcceptsExactly` | cgi/fastcgi.c:684-843 | a stream is accepted if and only if it begins with headers of empty STDIN records, BEGIN_REQUEST with a known role, PARAMS records that fit and hold complete pairs, and one more header |
| `FcgiHead.RequestOnTheWire` | cgi/fastcgi.c:684-843 | one request, byte by byte, and the table it stands for |
| `FcgiHead.QueriesExactly` | cgi/fastcgi.c:776-806 | a stream is a query if and only if it begins with headers of empty STDIN records and a GET_VALUES record that fits and holds complete pairs |
| `FcgiHead.QueryIsTaken` | cgi/fastcgi.c:776-806 | such a query asks for each name in it once, in the order in which the names first come |
| `FcgiHead.QueryOnTheWire` | cgi/fastcgi.c:776-806 | one query, byte by byte, and the name it asks for |
| `FcgiExchange.WholeRequest` | cgi/fastcgi.c:684-896 | head and body of a request together survive any framing and any read sizes |
| `FcgiExchange.NextRequestFollows` | cgi/fastcgi.c:703-712 | on a kept connection the next request is found even when the record that ends the body was never asked for |
| `FcgiExchange.SendBody` | cgi/fastcgi.c:1104-1243 | any pieces of one stream through the writer and a flush become non-empty records that carry them |
| `FcgiExchange.ReadBack` | cgi/fastcgi.c:845-896 | and calls of fcgi_read with any sizes on those records, ended by an empty one, give the bytes back unless a read failed |
| `FcgiExchange.ReadBody` | cgi/fastcgi.c:845-896 | calls of fcgi_read with any sizes, up to the first short one, give the next payload bytes from any place in a body, unless a read failed |
| `FcgiLifecycle.LawfulCounts` | cgi/fastcgi.c:898-1084 | in a lawful history table initialisations and destructions, returned requests and END_REQUESTs, accepts and closes balance up to the current phase |
| `FcgiLifecycle.OneEndPerRequest` | cgi/fastcgi.c:898-1084 | between initialisation and destruction of the table there is one END_REQUEST for a returned request and none for a rejected one |
| `FcgiLifecycle.EndedTwice` | cgi/cgi_main.c:1218-1234 | one early finish on a kept connection and the finish of the next accept: the response ends twice |
| `FcgiLifecycle.TableLost` | cgi/cgi_main.c:1218-1234 | one early finish on a connection that is closed by it, and the next request: its table is initialised over the other |
| `FcgiLifecycle.Worker.CloseRequest` | cgi/fastcgi.c:898-941 | closes exactly when forced or not kept alive |
| `FcgiLifecycle.Worker.Finish` | cgi/fastcgi.c:1245-1252 | keeps the discipline if and only if there is no connection or a request waits for its END_REQUEST |
| `FcgiLifecycle.Worker.AcceptOne` | cgi/fastcgi.c:987-1019 | an accepted connection stays open if and only if its address is among the allowed clients, and is closed at once otherwise |
| `FcgiLifecycle.Worker.AwaitConnection` | cgi/fastcgi.c:953-1063 | it ends with one open connection, or with none and the history where it was; every other connection that came is closed again and none is read; the outcome is that of `WaitTo` |
| `FcgiLifecycle.Worker.WaitWaits` | cgi/fastcgi.c:953-1063 | the wait takes the first connection that is allowed and readable in time, unless it looks when a shutdown is asked for, or accept fails for good, before that |
| `FcgiLifecycle.Worker.Accept` | cgi/fastcgi.c:943-1084 | over keep-alive, poll timeout, rejection and shutdown: from a lawful history it stays lawful exactly when the last request was not finished early; it returns no request exactly when it looked at a shutdown or accept failed for good |
| `FcgiLifecycle.Worker.AcceptAccepts` | cgi/fastcgi.c:943-1084 | the look at a shutdown and the failed accept are the last ones; all readings but the last fail; a request comes from the kept connection or from the usable one that was accepted last |
| `FcgiLifecycle.Worker.FinishEarly` | cgi/cgi_main.c:1218-1234 | the script's own finish notes an early end, followed by a close exactly when the connection is not kept, and leaves the table: the next phase is one of the two that break |
| `FcgiLifecycle.Worker.Serve` | cgi/cgi_main.c:1478-1612 | over every run of the loop the history is lawful if and only if every early end in it is followed at once by the close of its connection and by no other request; it has an early end if and only if some served script asked for one; requests are counted, none is returned at or after the first look at which a shutdown is asked for, and each reason to stop has its cause |
| `FpmArrays.WithoutKeepsTheRest` | fpm/fpm_arrays.h:61-77 | removal by moving the last item keeps every other item, once |
| `FpmArrays.FpmArray.Push` | fpm/fpm_arrays.h:79-100 | growth to 20 or to twice the size keeps all items |
| `FpmArrays.FpmArray.ItemRemove` | fpm/fpm_arrays.h:61-77 | removes one item and tells which place was filled from the end |
| `Shm.RoundUpIsLeast` | fpm/fpm_shm.c:72-80 | the rounded size is the least multiple that is large enough |
| `Shm.MaskRoundsUp` | fpm/fpm_shm.c:72-80 | on words of any width and for every unit that is a power of two the mask arithmetic is rounding up if and only if the sum does not wrap around |
| `Shm.SegmentList.AllocChunk` | fpm/fpm_shm.c:65-99 | the chunk lies inside the segment reported in *mem, has the rounded size, overlaps no other chunk; a segment is mapped only when the head has no room |
| `Shm.SegmentList.FreeList` | fpm/fpm_shm.c:54-63 | unmaps every segment but the one that starts at the given address, and nothing else |
| `Shm.AllocAmong` | fpm/fpm_shm.c:65-99 | several lists over one address space stay separate, and a chunk in one of them leaves the others as they are |
| `Shm.FreeLists` | fpm/fpm_worker_pool.c:24-34 | the sweep over the lists of all pools unmaps every segment but those that start at the given address, and nothing outside the lists |
| `ShmSlots.NoSharing` | fpm/fpm_shm_slots.c:17-77 | as chunks have different addresses, no slot occurs twice among used and free entries |
| `ShmSlots.SlotArrays.PutReused` | fpm/fpm_shm_slots.c:37-41 | the last free entry becomes the child's, all other entries stay |
| `ShmSlots.SlotArrays.Discard` | fpm/fpm_shm_slots.c:50-77 | entry and index of the moved child agree again, and every forked worker's address is still that of its entry |
| `ShmSlots.SlotArrays.SlotOf` | fpm/fpm_shm_slots.c:100-108 | the master finds for a child the very address that its worker took when it was forked |
| `ShmSlots.SlotArrays.ChildUseSlot` | fpm/fpm_shm_slots.c:79-88 | the worker takes the address of its entry and the start of the segment around it |
| `ShmSlots.Pool.PrepareSlot` | fpm/fpm_shm_slots.c:17-48 | a free slot or a new chunk, zeroed, that no other child has; never more slots than max_children |
| `ShmSlots.Pool.DiscardSlot` | fpm/fpm_shm_slots.c:50-77 | after a failed fork or an exit the slot is free again and nothing else changes |
| `ShmSlots.Pool.Unshared` | fpm/fpm_shm_slots.c:17-108 | no two children share a slot; used and free slots partition all slots ever allocated, at most max_children |
| `ShmSlots.Pool.Spawn` | fpm/fpm_children.c:319-355 | behind the guard on running_children a prepared slot goes to the worker when fork succeeds, which takes its address and is counted, and back when it fails |
| `ShmSlots.Pool.ReapOne` | fpm/fpm_children.c:205-213 | a reaped worker is no longer counted and its slot is free; each running worker still has exactly one slot |
| `ShmSlots.Pool.Run` | fpm/fpm_children.c:313-360 | every interleaving of made workers, failed forks and deaths: running_children is the number of slots in use and of the forks that succeeded less the deaths, at most max_children slots are ever allocated, and every worker that is left took an address when it was forked and is found at it |
| `ShmSlots.WorkerCleanup` | fpm/fpm_worker_pool.c:24-34 | of the segments of all pools a worker keeps exactly the one around its own slot |
| `SlotLock.MutualExclusion` | fpm/fpm_atomic.h:120-136 | over every interleaving worker and master are never both inside, also when a worker dies inside |
| `SlotLock.SnapshotsAreComplete` | fpm/fpm_request.c:105-118 | every snapshot of the master is one complete publication of the worker it was taken of, never torn |
| `SlotLock.ForkFindsCleanSlot` | fpm/fpm_shm_slots.c:43 | whatever the last owner left, a new worker finds its slot unlocked and zeroed |
| `SlotLock.WorkerWaitsOnlyForCopy` | fpm/fpm_shm_slots.c:110-121 | a live worker's attempt to enter fails only while the master copies |
| `SlotLock.TryLockSucceeds` | fpm/fpm_atomic.h:120-136 | the one attempt of the master succeeds exactly when no worker, alive or dead, is inside |
| `SlotLock.UpdateIsPublished` | fpm/fpm_request.c:36-103 | an uninterrupted critical section of a worker publishes all of its writes in order and leaves the slot unlocked |
| `SlotLock.CopyIsTaken` | fpm/fpm_request.c:105-118 | an uninterrupted check of the master takes a snapshot of the words as they are and changes nothing else |
| `SlotLock.SlotIsRecycled` | fpm/fpm_shm_slots.c:30-48 | the slot of a reaped worker can always be cleared and given to the next one, or stays free and cleared when there is none |
| `ProcessCtl.OverridesClimbs` | fpm/fpm_process_ctl.c:223-251 | a state overrides another exactly when it ranks higher |
| `ProcessCtl.RunKeeps` | fpm/fpm_process_ctl.c:121-137 | over every run: signals go from SIGQUIT to SIGTERM to SIGKILL, in TERMINATING from SIGTERM on, at most five rounds are not SIGKILL, the timer is armed outside NORMAL, and a master that left executed itself anew if and only if it was in RELOADING |
| `ProcessCtl.RunIsAnswered` | fpm/fpm_process_ctl.c:185-289 | over every run state, signals and end are those of a machine without fpm_signal_sent and timer flags: higher states are entered with a round of signals, each timer outside NORMAL adds the next round with its delay, and a master without children leaves instead |
| `ProcessCtl.LastChildLeaves` | fpm/fpm_process_ctl.c:121-137 | when the last child exits, a master that is not in NORMAL leaves: RELOADING executes anew, the others exit |
| `ProcessCtl.NeverDown` | fpm/fpm_process_ctl.c:185-273 | states only climb, and once FINISHING or TERMINATING is entered the master never executes itself anew |
| `Children.Pool.Link` | fpm/fpm_children.c:83-94 | the intrusive list grows at its head and stays doubly linked and counted |
| `Children.Pool.Unlink` | fpm/fpm_children.c:96-105 | the list loses exactly this child and stays doubly linked and counted |
| `Children.Pools.Find` | fpm/fpm_children.c:107-130 | a listed child with the pid, or none has it |
| `Children.Pools.KillAll` | fpm/fpm_process_ctl.c:160-183 | every child of every pool is signalled exactly once |
| `Children.Pools.Unlink` | fpm/fpm_children.c:96-105 | all pools stay well formed and the global counter is still the sum of their lengths |
| `Master.Master.ActionNext` | fpm/fpm_process_ctl.c:185-215 | a step of the state machine, and with children left the signal goes to all of them, each once |
| `Master.Master.Pctl` | fpm/fpm_process_ctl.c:217-273 | the three actions are steps of the state machine |
| `Master.Master.Make` | fpm/fpm_children.c:313-360 | the new children are those that fork gave the master, in front of the listed ones; all forks but the last made one; it failed exactly when the last one did, and otherwise, in NORMAL and in the master, the pool is exactly full |
| `Master.Master.StartUp` | fpm/fpm.c:61-70 | all pools are full unless a fork failed or this is a new worker, and the workers are those that fork made |
| `Master.Master.Faulted` | fpm/fpm_children.c:224-252 | a reload is set exactly when the window over all fault times says so |
| `Master.Master.Bury` | fpm/fpm_children.c:205-256 | exactly this child leaves its list, those that fork made come in front, other pools are untouched; the state machine is told, a fault by SIGSEGV or SIGBUS is recorded and asks for a reload exactly when there were too many; supervision still holds |
| `Master.Master.Reap` | fpm/fpm_children.c:159-262 | each report is one step from moment to moment, until exec, exit or a fork in the child: a worker that is there and did not only stop is buried and no other; at return lists, counters and limits agree, NORMAL pools are full unless one of the forks so far failed, and outside NORMAL there are workers and the timer is armed |
| `Master.Master.Handle` | fpm/fpm_process_ctl.c:217-289 | an occurrence is the incidents that it stands for, each noted as one step, and what supervision promises holds again |
| `Master.Master.Run` | fpm/fpm_process_ctl.c:121-289 | over every run of signals, timer and deaths from the start of the workers: each incident is one step, the state never goes down, once it is not NORMAL the workers never become more, the control state is that of the run that the incidents tell the state machine, the recorded faults are those of the workers that died of SIGSEGV or SIGBUS under a master still there, the workers are those that were forked and not buried, and a master that left executed itself anew if and only if it was in RELOADING |
| `FaultRing.Ring.Record` | fpm/fpm_children.c:224-249 | the ring decides as a window over the unbounded fault history; with fewer faults than the threshold only while the clock is within its first interval |
| `FaultRing.Ring.Window` | fpm/fpm_children.c:235-241 | all entries of the ring are recent exactly when the last faults are |
| `RequestTimeouts.SecondsAreExact` | fpm/fpm_config.h:24-32 | the borrow in timersub makes the test on whole seconds exact to the microsecond |
| `RequestTimeouts.Watched.CheckTimedOut` | fpm/fpm_request.c:105-163 | the decision on a snapshot and the child's mark afterwards are those of `Decide`, of which `RunIsRight` says what they come to |
| `RequestTimeouts.RunIsRight` | fpm/fpm_request.c:105-163 | over every run with a monotone clock each check traces exactly a script that has executed for the slowlog limit and was not traced before, and otherwise sends SIGTERM exactly to a worker whose request has lasted for the terminate limit |
| `RequestTimeouts.RequestSlot.ReportReadingHeaders` | fpm/fpm_request.c:36-48 | stage, time and accepted become those of this report |
| `RequestTimeouts.RequestSlot.ReportFinished` | fpm/fpm_request.c:91-103 | the stage is that of a finished request and accepted is cleared |
| `RequestTimeouts.RunPromises` | fpm/fpm_request.c:91-163 | so there is one trace per accepted time and only of scripts beyond the slowlog limit, SIGTERM only when exactly overdue, and of two overdue checks of a request at least one sends it |
| `Stdio.SplitRestores` | fpm/fpm_stdio.c:118-180 | restoring the newlines gives the bytes back; every message but the last ends in a newline or is 1023 bytes long |
| `Stdio.SplitIsUnique` | fpm/fpm_stdio.c:118-180 | there is only one such way to split bytes |
| `Stdio.Say` | fpm/fpm_stdio.c:132-180 | one turn prints the first complete message, or all that is left when nothing more comes, and keeps the rest |
| `Stdio.ChildSaid` | fpm/fpm_stdio.c:79-183 | for every way the bytes arrive the messages are those of the unique splitting; it reads until a read gives nothing, and closes the descriptor if and only if that was the end of the pipe or an error; read always has room and the loop ends |
| `SocketNames.SurvivesExec` | fpm/fpm_sockets.c:69-107 | the table comes back from exec as it was, up to reference counts, if and only if no key contains a comma or an equals sign and every type is the one its key looks like |
| `SocketNames.ReadsBack` | fpm/fpm_sockets.c:69-370 | for any table, what is written is read as what each socket gives alone, in order |
| `SocketNames.KeyComesBack` | fpm/fpm_sockets.c:69-370 | for any table and key: with a comma or an equals sign it is lost, otherwise it has its descriptor again unless a socket in front of it with such a key comes back under this key |
| `SocketNames.CommaCuts` | fpm/fpm_sockets.c:346-370 | of a key with a comma only what is behind it is left, with the descriptor |
| `SocketNames.EqualsCuts` | fpm/fpm_sockets.c:346-370 | a key with an equals sign ends there, and the descriptor is the number behind it |
| `SocketNames.KeysAreCut` | fpm/fpm_sockets.c:346-370 | `/tmp/a,/b` comes back as `/b`, `/tmp/a=5` as `/tmp/a` with descriptor 5, and behind the first the key `/b` has another descriptor than before |
| `SocketNames.AtoiOfPrinted` | fpm/fpm_sockets.c:84-86 | the number that is written is the number that is read, negative ones included |
| `SocketNames.InetKeyIsClean` | fpm/fpm_sockets.c:116-123 | the key of a network address contains a colon, and neither a comma nor an equals sign |
| `SocketNames.InetKeyIsUnique` | fpm/fpm_sockets.c:116-123 | different addresses or ports have different keys |
| `SocketNames.PathsExactly` | fpm/fpm_sockets.c:265-272 | an address is a path if and only if it has no colon and something that is no digit |
| `SocketNames.PortIsNetwork` | fpm/fpm_sockets.c:265-272 | a port alone and a host with a port are network addresses |
| `SocketNames.ConfiguredExactly` | fpm/fpm_conf.c:350-392 | a pool is a template exactly when its address is empty; the key of a path is the path, behind the prefix if it is relative, up to what sun_path holds |
| `SocketNames.TypeOfKey` | fpm/fpm_conf.c:380-392 | the key of every configured pool looks like its type, with exactly one exception: the address is a relative path and the prefix it gets has a colon, or fills sun_path with digits |
| `SocketNames.TypeChanges` | fpm/fpm_conf.c:382-386 | with the prefix /a:b a relative path is a path before exec and a network address after it |
| `Sockets.CountedTaken` | fpm/fpm_sockets.c:250-263 | one more pool, one more user of the first socket with its key; and a socket of its own when there is none or it was inherited with a negative number |
| `Sockets.FoundIsKnown` | fpm/fpm_sockets.c:250-263 | while pools ask for sockets the table has a descriptor for a key if and only if it was inherited with one, or was not inherited and an earlier pool has it |
| `Sockets.Table.GetUse` | fpm/fpm_sockets.c:144-160 | the first socket with the key gets a user, or nothing changes |
| `Sockets.Table.Import` | fpm/fpm_sockets.c:346-370 | the inherited value is read as its items, in order |
| `Sockets.Table.Sweep` | fpm/fpm_sockets.c:400-420 | every socket without users is closed exactly once, all others stay |
| `Sockets.Table.InitMain` | fpm/fpm_sockets.c:336-427 | over any inherited value it succeeds if and only if every pool is ready and its key was inherited with a descriptor, is shared, or can have a new socket; then each socket that stays has as many users as pools have its key, more than none, each pool has the inherited or the new socket of its key, pools with one key share it unless it was inherited with a negative number, and unused inherited ones are closed once; types keep looking like their keys |
| `Sockets.Table.CleanUp` | fpm/fpm_sockets.c:69-107 | before exec the whole table is written and nothing is closed; otherwise every socket is closed once |
| `Sockets.Reload` | fpm/fpm_sockets.c:69-427 | a reload over any table: each pool has the descriptor that its key comes back with, a new or shared one if it comes back with none; users and sharing are as after any start |
| `Sockets.CleanKeeps` | fpm/fpm_sockets.c:69-427 | a pool whose key was in the table has the same descriptor after a reload when its key and those in front of it have neither comma nor equals sign |
| `Trace.CopyIsString` | fpm/fpm_trace.c:11-45 | the wanted copy is the string up to its NUL or its first sz - 1 bytes |
| `Trace.CopyFailsAt` | fpm/fpm_trace.c:27-29 | it fails only where the string goes on into a word that cannot be read |
| `Trace.CopiesString` | fpm/fpm_trace.c:11-45 | with 4-byte and with 8-byte words: for a pointer that is not negative or is a multiple of the word size, the word-wise code equals the bounded copy |
| `Trace.MisreadsOthers` | fpm/fpm_trace.c:21-23 | for a negative pointer inside a word, with the next word readable and room for a byte, some stack contents make it differ |
| `Trace.AgreesExactly` | fpm/fpm_trace.c:11-45 | the code is right for all stack contents if and only if the pointer is not negative, or a multiple of the word size, or the copy is empty for lack of room and its word readable with the next one, or the next word is not readable and the copy fails anyway |
| `Trace.NegativePointerFails` | fpm/fpm_trace.c:21-23 | with 4-byte words the string "a" at 0xB7F01235 is copied as empty |
| `Trace.GetStrzInto` | fpm/fpm_trace.c:11-45 | the loops compute that result and write at most sz bytes |

## Left out

- Behaviour after a failed flush: cgi/fastcgi.c:1124-1127 leaves the offset where it was; the writer's contracts speak of what is on the wire when the writes succeed and of keep-alive when one fails, and fcgi_read_request resets the buffer.
- struct fcgi_request is split over the classes Output, Input, Request and Worker by the functions that use its fields; that reading a request clears in_len and the output buffer is the constructors of Input and Output.
- FcgiRequest.Request.ReadRequest: variables with which some reply would pass the end of the buffer are excluded (`FcgiRequest.ReplyFits` says which replies do, `FcgiRequest.TotalIsRoomy` which variables are safe); those that the program registers are not among them.
- FcgiRequest.Request.ReadRequest: keep-alive after a rejection is not given; the connection is closed whatever it is.
- FcgiRequest.Request.SendReply: contents of 65529 to 65534 bytes are excluded, for which the code writes past the end of its buffer and C gives no meaning.
- FcgiRequest.Request.ReadRequest: table values are byte strings with their length; the C strings of the original end at the first NUL.
- FcgiInput.Input.Read: bytes that a read took off before its hard error are not stored, and in_len and in_pad after a negative result are not given; in the code the bytes lie in the caller's buffer, and reading the next request resets both.
- FcgiFraming.ReadFramed: the record that ends a body has no padding and records with content plus padding above 65535 in a head are rejected, as in the code.
- FcgiLifecycle.Worker.ReadRequest: the outcome of each reading comes in as a constant there; FcgiRequest models it.
- FcgiLifecycle.Worker.AcceptOne: the lock around accept is not modelled.
- FcgiLifecycle.Worker.AwaitConnection: whether a connection becomes readable within five seconds comes in with the answer of accept.
- Transport.SafeWrite: a kernel that takes nothing without an error is bounded by `patience`.
- ShmSlots.Pool.PrepareSlot: allocation of shared memory does not fail; in the code a failure leaves an entry behind.
- Shm.SegmentList: the doubly linked list of segments is a sequence, and only its head is ever changed.
- struct fpm_child_s and struct fpm_worker_pool_s are split: ShmSlots has the slots, Children the lists and pids, RequestTimeouts the slow log mark; pipes and events are not modelled.
- SlotLock.SnapshotsAreComplete: memory is sequentially consistent, word by word.
- Master.Master.Make: in a new worker only the fact that it is one is modelled; a failed fpm_resources_prepare and a failed fork are one outcome.
- Master.Master.Reap: pids are whatever fork returned; that the kernel does not hand out a live child's pid again is not needed and not assumed.
- Master.Master.ActionNext: whether kill(2) succeeds is only logged by the code and not modelled.
- RequestTimeouts.RunPromises: a request is what has one accepted time; on a kept connection several requests share it, since only a new accept sets it.
- Stdio.ChildSaid: output is free of NUL bytes; the code's strchr stops at them.
- Sockets.Table.InitMain: whether a host is known, permissions are found and a socket can be made comes in as a parameter; the result per pool is a list instead of a field of the pool.
- SocketNames.Atoi: leading white space is not skipped, and numbers are not cut to 32 bits; the value that a former master wrote needs neither.
- Sockets.Table.CleanUp: with an empty table FPM_SOCKETS keeps its former value, as in the code; the import has cut that off behind its first key by writing into it.
- Trace.GetStrzInto: addresses are unbounded integers; memory at the very end of the address space, where the C counter would overflow, is not modelled.
- The SAPI glue of cgi/cgi_main.c, configuration, logging, environment, user switching, cleanup registration, event loop and the ptrace, pread and Mach back ends: plumbing around the parts above.
