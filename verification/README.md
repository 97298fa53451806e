# A game-server library, modelled and proved in Dafny

The models cover the parts of the library that keep state over time. Each is a class in the form of the source (linked
rings, arrays, growing buffers, maps), proved against a model on values where the source's promise is about whole runs.
Every statement is for all inputs and all runs, not for a bounded number of steps.

- **Timing wheel** (`WheelLayout`, `WheelModel`, `WheelProofs`, `WheelSweeps`, `WheelTheorems`, `WheelOrder`, `WheelAhead`,
  `TimerWheel`). Five wheels of doubly linked rings, a recursive cascade, a ready list and callbacks that may add and
  delete timers. The value model gives the state after each call; `TimerWheel` shows that the linked structure follows it
  link by link. The main results bound how late and how early any timer can be, and say in which order timers are called,
  each once. Time passes as in the server's main loop: each Refresh gets the time since the last one.
- **Shortest paths** (`Floyd`). The in-place triple loop and the route it leads to, for any number of vertices.
- **Framed connection** (`Framing`, `NetBuffer`, `Links`). Two ends that write frames into growing buffers, with one
  outstanding send each and arbitrary chunking on the way.
- **Asynchronous log** (`LogModel`, `AsyncLog`). Callers and one writer exchanging buffers, as a state machine with a program
  counter for the writer, then on real buffers. The remark in the source (src/common/Log/AsyncLog.cpp:62) that data
  appended during the last write of the loop is lost does not hold of the code: the write after the loop puts it out.
- **Pools** (`PoolLevel`, `PoolIndex`). Blocks that split and refill one another's levels, and handles that outlive the
  objects they name.
- **Reference counts** (`SharedPtr`). shared_ptr and weak_ptr with objects that hold pointers, to others or themselves.
- **Schedulers** (`Cyclic`, `ServiceVec`, `ServicePatch`). A cursor over a vector from which callbacks erase.
- **Remote calls** (`RpcQueue`). Two processes, each with a main loop and an I/O thread.
- **Rooms** (`LogicMap`). The index of rooms by free places.

`Common` and `Division` hold what several of them use. `dafny verify dfyconfig.toml` checks everything.

Five promises hold only on a condition, which is proved, each with an input for which the promise fails.

- The wheel counts every millisecond, and no timer is late by a tick or more, if and only if every Refresh fits the 32-bit
  counter (`NothingLostJustWhenFitting`, `AllOnTimeJustWhenFitting`, `LateByTheCounter`).
- No timer is early by more than a Refresh and a tick, if AddTimer never reads the clock ahead of the next Refresh, or not
  so far that a delay comes near 2^32 (`NeverEarly`, `EarlyWhenAhead`).
- A registration with `ServiceVec` keeps its order (`RegisterKeepsOrder`, `RegisterOutOfOrder`). Without that nothing bounds
  how long an entry that is due waits (`NoBound`).
- `ServicePatch` keeps every millisecond (`KeptJustWhenDividing`, `KeptJustWithoutOverflow`, `LostOtherwise`).
- A room's note of its users stays right when a user enters (`EnteringIsNoted`, `EnterAgain`).

## Model

| member | source | states |
|---|---|---|
| WheelLayout.LayoutFromBits | src/common/Timer/TimerWheel.cpp:9-18 | The slot counts, masks and capacities used throughout are the shifts computed from the bit widths 8, 6, 6, 6, 5, a whole turn of one wheel is one slot of the next, and all stay below 2^32 |
| WheelLayout.EveryDelayFits | src/common/Timer/TimerWheel.cpp:46-60 | Every 32-bit delay in milliseconds falls below the capacity of the coarsest wheel, so a slot is always found |
| WheelProofs.SlotForIsSwept | src/common/Timer/TimerWheel.cpp:44-61 | The slot chosen for a delay is swept no later than one tick after the delay and no earlier than the guaranteed lower bound, on every wheel |
| WheelProofs.SettlePlaceGood | src/common/Timer/TimerWheel.cpp:128-138 | A node that a cascade re-files by wall time keeps its lateness and earliness bounds, although the wheel stands somewhere inside a multi-tick Refresh |
| WheelProofs.CascadeGood | src/common/Timer/TimerWheel.cpp:115-140 | A whole cascade, over any number of wheels, keeps both bounds for every timer |
| WheelProofs.ApplyGood | src/common/Timer/TimerWheel.cpp:24-140 | Every call and both halves of every callback keep the bounds for all timers |
| WheelSweeps.NeverReenters | src/common/Timer/TimerWheel.cpp:121-137 | A node re-filed by a cascade is never put into a slot just swept in the same tick |
| WheelSweeps.SweepSlotMoves | src/common/Timer/TimerWheel.cpp:126-138 | Sweeping a slot moves each of its nodes out exactly once, and no other node |
| WheelSweeps.SweptOnExactlyThatTick | src/common/Timer/TimerWheel.cpp:44-95 | A node o slots ahead on a wheel whose slots are cap ticks long stays put until tick M - M mod cap + (o + 1) * cap and is moved by exactly that tick |
| WheelSweeps.WaitsForItsSweep | src/common/Timer/TimerWheel.cpp:80-95 | No earlier tick moves or changes it |
| WheelTheorems.RunGood | src/common/Timer/TimerWheel.cpp:24-140 | After any run from a new wheel the slot positions are the mixed-radix digits of the tick count, every node is in exactly one ring, and all bounds hold |
| WheelModel.CounterKeeps | src/common/Timer/TimerWheel.cpp:77-79 | The 32-bit milliseconds counter keeps the time left over plus elapse just when their sum fits 32 bits, and otherwise loses 2^32 ms |
| WheelTheorems.NeverLate | src/common/Timer/TimerWheel.cpp:76-98 | After any run, once the callbacks of a Refresh at time t are over, every live timer is in a slot and max(when, armedAt + delay) + 25 > t minus what the counter has lost since the arming, for all elapses, delays, re-arms, deletions and lags |
| WheelTheorems.NothingLostJustWhenFitting | src/common/Timer/TimerWheel.cpp:77-79 | Over any run the counter has lost nothing if and only if at every Refresh the milliseconds left over plus elapse were below 2^32 |
| WheelTheorems.NeverLateWhenFitting | src/common/Timer/TimerWheel.cpp:76-98 | After such a run every live timer has max(when, armedAt + delay) + 25 > t |
| WheelTheorems.LateByTheCounter | src/common/Timer/TimerWheel.cpp:77-79 | After any other one it need not: a timer for time 0 still waits at time 2^32, after a Refresh of 1 ms and one of 2^32 - 1 ms |
| WheelTheorems.OnTimeJustWhenFitting | src/common/Timer/TimerWheel.cpp:76-98 | In every state, for every delay and elapse, a timer added at the last Refresh time is on time after the next Refresh if and only if the milliseconds left over plus elapse are below 2^32 or the timer was not due by then |
| WheelTheorems.AllOnTimeJustWhenFitting | src/common/Timer/TimerWheel.cpp:76-98 | So whatever could be added then is on time after a Refresh if and only if that fits the counter |
| WheelTheorems.NeverEarly | src/common/Timer/TimerWheel.cpp:76-97 | A timer that has become ready has t > min(when, armedAt + delay) - (25 + E + A), E the largest elapse of any Refresh and A the most by which AddTimer read the clock ahead of the Refresh after it, if no delay of an AddTimer reached 2^32 - A; always, then, if A is 0. The margin is max(25, E) for every timer whose deadline was within 2^32 ms of the arming, as all are on a wheel whose Refreshes and readings were shorter than 24 days |
| WheelAhead.EarlyWhenAhead | src/common/Timer/TimerWheel.cpp:128-135 | Otherwise it need not: armed for 2^32 - 1 ms at a reading 1 ms ahead of a Refresh 19 days on, a timer is ready after that Refresh, more than 10 days earlier than that margin allows |
| WheelTheorems.NothingElseTouches | src/common/Timer/TimerWheel.cpp:24-98 | Only its own DelTimer or the return of its own callback removes a timer or changes its deadline |
| WheelTheorems.AddedTimerIsOnTime | src/common/Timer/TimerWheel.cpp:37-98 | Deadline and both bounds for a timer added at any reading of the clock, along any later run that neither deletes nor re-arms it |
| WheelTheorems.RearmedTimerIsOnTime | src/common/Timer/TimerWheel.cpp:24-34 | The same for a timer whose callback returned n > 0: its deadline is n later than it was, and from then on it is less than a tick later than the later, and at most the margin earlier than the earlier, of that and the last Refresh time plus n |
| WheelTheorems.ReturnRearms | src/common/Timer/TimerWheel.cpp:24-34 | A callback's return leaves the timer there if and only if the result is positive |
| WheelTheorems.DeletedIsGone | src/common/Timer/TimerWheel.cpp:68-75 | A deleted timer is in no ring and not called, unless its own callback is running, whose return decides |
| WheelTheorems.DialOfRun | src/common/Timer/TimerWheel.cpp:76-79 | The time, largest elapse and loss that the bounds speak of are those of the Refreshes of the run |
| WheelOrder.SettleAllInOrder | src/common/Timer/TimerWheel.cpp:126-138 | The walk over a cut-off chain puts its nodes behind those each ring has already, in the order of the chain |
| WheelOrder.TickReadies | src/common/Timer/TimerWheel.cpp:80-95 | The tick that sweeps a slot of the finest wheel puts its nodes behind those already ready, in their order |
| WheelOrder.TicksKeepOrder | src/common/Timer/TimerWheel.cpp:80-95 | Of two timers in one slot of the finest wheel, the one filed first stays in front, there until the slot is swept and on the ready list after that |
| WheelOrder.EventKeepsOrder | src/common/Timer/TimerWheel.cpp:24-98 | Two timers that a call or a callback leaves in a slot, of any wheel, or on the ready list stay in their order there |
| WheelOrder.CalledInFiledOrder | src/common/Timer/TimerWheel.cpp:24-98 | Over any run, two timers of one slot of the finest wheel become ready, and are called, in the order in which they were filed |
| WheelOrder.ReadyDepartOnce | src/common/Timer/TimerWheel.cpp:106-114 | Between two Refreshes nothing becomes ready, and a ready timer leaves the list by its own call or its own deletion, just once |
| TimerWheel.LinkLast | src/common/Timer/TimerWheel.cpp:62-66 | The four link assignments append the node to a doubly linked ring and keep it well linked both ways |
| TimerWheel.Unlink | src/common/Timer/TimerWheel.cpp:70-73 | The relinking takes exactly that node out of its ring, or out of a chain from behind its first node |
| TimerWheel.TimeWheel.constructor | src/common/Timer/TimerWheel.cpp:9-18 | Five wheels of empty rings at position 0 |
| TimerWheel.TimeWheel.FindSlot | src/common/Timer/TimerWheel.cpp:45-61 | The slot the search finds is the one the model names, for every 32-bit delay |
| TimerWheel.TimeWheel.AddTimerNode | src/common/Timer/TimerWheel.cpp:44-67 | The node is last in that slot; nothing else moves |
| TimerWheel.TimeWheel.AddTimer | src/common/Timer/TimerWheel.cpp:37-43 | A fresh node, due at the clock's reading plus the delay, goes to the slot for its delay, and the history grows by this call |
| TimerWheel.TimeWheel.DelTimer | src/common/Timer/TimerWheel.cpp:68-75 | The node leaves its ring and is freed, unless its own callback is running |
| TimerWheel.TimeWheel.TakeSlot | src/common/Timer/TimerWheel.cpp:120-127 | The slot is emptied and its former nodes form a chain in the old order |
| TimerWheel.TimeWheel.CascadeChain | src/common/Timer/TimerWheel.cpp:126-138 | Walking the cut-off chain settles every node exactly once, although settling rewrites the links behind it |
| TimerWheel.TimeWheel.Cascade | src/common/Timer/TimerWheel.cpp:115-140 | The recursive cascade over the rings does what the model cascade does |
| TimerWheel.TimeWheel.Tick | src/common/Timer/TimerWheel.cpp:80-95 | One turn of the loop over the rings does what one model tick does |
| TimerWheel.TimeWheel.SweepTicks | src/common/Timer/TimerWheel.cpp:80-96 | The loop does as many ticks as have elapsed |
| TimerWheel.TimeWheel.CountElapse | src/common/Timer/TimerWheel.cpp:77-79 | For every 32-bit elapse the counter yields its whole ticks and keeps the rest |
| TimerWheel.TimeWheel.Func | src/common/Timer/TimerWheel.cpp:26 | An arbitrary callback: any number of AddTimer and DelTimer calls on live nodes but the next in line, and any result |
| TimerWheel.TimeWheel.StartCallback | src/common/Timer/TimerWheel.cpp:24-26 | The first ready node is marked running and leaves the ready list |
| TimerWheel.TimeWheel.EndCallback | src/common/Timer/TimerWheel.cpp:27-34 | A positive result makes the node due by that much later and files it again; any other deletes it |
| TimerWheel.TimeWheel.CallFunc | src/common/Timer/TimerWheel.cpp:24-34 | The result that decides is the one the callback has returned |
| TimerWheel.TimeWheel.DoTimeOutCallBack | src/common/Timer/TimerWheel.cpp:106-114 | The loop over the stale ready chain ends with the list empty; every timer ready at its start has been called or deleted by a callback, just once, and no other has been called, whatever the callbacks add and delete |
| TimerWheel.TimeWheel.Refresh | src/common/Timer/TimerWheel.cpp:76-98 | For every 32-bit elapse the rings stay well formed and mean what the model says after every tick and callback, so all theorems about runs hold of them; every timer that has become ready is called or deleted just once |
| TimerWheel.TimeWheel.NoneLate | src/common/Timer/TimerWheel.cpp:76-98 | Both lateness bounds, of the linked structure itself, between any two calls |
| Floyd.DistanceIsUnique | src/common/tool/Floyd.h:15 | The length of a shortest walk, or 99999 for none shorter, is one number |
| Floyd.LowerAcross | src/common/tool/Floyd.h:57-65 | Adding a vertex to those a walk may pass through, the minimum of the old entry and the detour bounds all such walks |
| Floyd.Relax | src/common/tool/Floyd.h:61-64 | One update is right for the enlarged vertex set whether or not the entries it reads have been updated in this phase already |
| Floyd.NextHop | src/common/tool/Floyd.h:63 | The next hop is a real edge, and the distance left falls by its weight |
| Floyd.HopExistsIffReachable | src/common/tool/Floyd.h:67-77 | A next hop is a vertex just when the distance is below 99999; otherwise the loop of GetPath would index with -1 |
| Floyd.Graph.Init | src/common/tool/Floyd.h:44-55 | The first double loop gives the distances over walks through no vertex |
| Floyd.Graph.RelaxCell | src/common/tool/Floyd.h:60-65 | One in-place update, with the invariant of the three nested loops |
| Floyd.Graph.Floyd | src/common/tool/Floyd.h:41-66 | For every number of vertices and all weights below 99999, Distance[i][j] is the length of a shortest walk or 99999, and Path the next hop of one |
| Floyd.Graph.GetPath | src/common/tool/Floyd.h:67-81 | The loop ends with a simple path of real edges from one vertex to the other whose length is Distance, for every reachable pair |
| Framing.DecodesUniquely | src/NetLib/iocp/client/ClientLink.cpp:258-275 | A stream of frames can be decoded in one way only, so decoded bytes that begin the stream are its first messages |
| Framing.NothingLeftOver | src/NetLib/iocp/client/ClientLink.cpp:261-267 | A receiver with all bytes and no whole frame pending has all messages |
| NetBuffer.Buffer.constructor | src/common/Buffer/buffer.h:30-38 | A new buffer is empty with the size asked for writable |
| NetBuffer.Buffer.MakeSpace | src/common/Buffer/buffer.h:139-151 | Growth and compaction leave the readable bytes as they were and room for len more |
| NetBuffer.Buffer.MoveToFront | src/common/Buffer/buffer.h:145-149 | The overlapping forward copy moves the readable bytes intact |
| NetBuffer.Buffer.Append | src/common/Buffer/buffer.h:50-55 | The readable bytes are the old ones followed by the data |
| NetBuffer.Buffer.Prepend | src/common/Buffer/buffer.h:56-68 | The data goes before the readable bytes, where there is room for it |
| NetBuffer.Buffer.ReaderMove | src/common/Buffer/buffer.h:103-109 | The first min(len, readable) bytes are gone |
| NetBuffer.Buffer.WriterMove | src/common/Buffer/buffer.h:110-114 | The bytes behind the readable ones become readable |
| NetBuffer.Buffer.Shrink | src/common/Buffer/buffer.h:122-129 | Readable bytes stay, room for the reserve remains |
| NetBuffer.Buffer.Swap | src/common/Buffer/buffer.h:130-135 | Both buffers change contents and room |
| Links.CompleteSome | src/NetLib/iocp/server/ServLink.cpp:365-385 | A partial completion moves exactly its bytes from the buffer to the wire |
| Links.ServLink.PostSend | src/NetLib/iocp/server/ServLink.cpp:396-421 | Posting needs that nothing is outstanding, which every caller establishes |
| Links.ServLink.SendMsg | src/NetLib/iocp/server/ServLink.cpp:552-582 | When a message is refused, accepted only, or accepted and posted; its frame goes behind all pending bytes |
| Links.ServLink.ServerRunSendIO | src/NetLib/iocp/server/ServLink.cpp:386-395 | The sending thread posts all pending bytes just when none are outstanding |
| Links.ServLink.OnSendDoneIO | src/NetLib/iocp/server/ServLink.cpp:365-385 | The rest after a partial completion is posted at once; otherwise sending is free again |
| Links.ServLink.OnReadDoneIO | src/NetLib/iocp/server/ServLink.cpp:450-489 | Whatever the chunking, all whole frames are handled in order up to the first message whose handling makes the link invalid, or the first head of nMaxPackage or more; the link is invalid afterwards if and only if there was one, and otherwise no whole frame waits |
| Links.ServLink.RecvMsg | src/NetLib/iocp/server/ServLink.cpp:490-515 | An invalid link handles nothing more; otherwise the message is handled and the verdict noted |
| Links.ClientLink.PostSend | src/NetLib/iocp/client/ClientLink.cpp:209-232 | As for the server; at most one send is outstanding |
| Links.ClientLink.SendMsg | src/NetLib/iocp/client/ClientLink.cpp:282-295 | The frame goes behind all pending bytes and is posted unless a send is outstanding or it is empty |
| Links.ClientLink.OnSendDoneIO | src/NetLib/iocp/client/ClientLink.cpp:196-208 | As for the server |
| Links.ClientLink.OnReadDoneIO | src/NetLib/iocp/client/ClientLink.cpp:256-277 | Whatever the chunking, all whole frames are handled in order and room remains for more |
| Links.Connection.InOrder | src/NetLib/iocp/server/ServLink.cpp:552-582 | In every reachable state each end has handled, in order, a prefix of what the other end accepted |
| Links.Connection.Delivered | src/NetLib/iocp/client/ClientLink.cpp:256-277 | With nothing pending and every byte delivered, the client has handled every message |
| Links.Connection.DeliveredToServer | src/NetLib/iocp/server/ServLink.cpp:450-489 | With nothing pending at the client, every byte delivered and the link valid, the server has handled every message |
| Links.Connection.WhyInvalid | src/NetLib/iocp/server/ServLink.cpp:464-515 | The server's link is invalid if and only if a post has failed, SendMsg was given a message that is too long, the last message handled made it so, or the head of the next, of nMaxPackage or more, has arrived |
| Links.Connection.NothingRejected | src/NetLib/iocp/server/ServLink.cpp:450-489 | So over runs without failures, over-long messages and such verdicts the link stays valid, and once all bytes have arrived all messages have been handled |
| Links.Connection.AnyRun | src/NetLib/iocp/server/ServLink.cpp:365-421 | Any interleaving of senders, sending thread, partial completions, failures and arbitrary deliveries keeps all this |
| LogModel.RotateGood | src/common/Log/AsyncLog.cpp:34-39 | Queueing a full buffer keeps all text and each buffer in one place |
| LogModel.TakeGood | src/common/Log/AsyncLog.cpp:52-61 | The exchange under the lock keeps all text in order and each buffer in one place |
| LogModel.RecycleGood | src/common/Log/AsyncLog.cpp:64-67 | Recycling loses no text and gives the writer its spares back |
| LogModel.ApplyGood | src/common/Log/AsyncLog.cpp:27-80 | Every step of callers and writer keeps the invariant, and output only grows |
| LogModel.WrittenPlusHeld | src/common/Log/AsyncLog.cpp:27-68 | In every interleaving, until the last write, output followed by what the buffers hold is what was appended, and all buffers are distinct |
| LogModel.AllWrittenAtEnd | src/common/Log/AsyncLog.cpp:69-81 | When the writer has ended, output is everything appended if and only if no Append came after its last write |
| LogModel.EndsOnlyAfterStop | src/common/Log/AsyncLog.cpp:50 | The writer leaves its loop only after a Stop, and nothing is late before that |
| LogModel.StopLosesNothing | src/common/Log/AsyncLog.cpp:69-81 | When it has ended, the output has all that had been appended at any time before the Stop; what is missing was appended after |
| LogModel.StopEnds | src/common/Log/AsyncLog.cpp:50-81 | After a Stop the writer ends in at most five steps, whatever is appended meanwhile, so that the join returns |
| LogModel.WriterGoesOn | src/common/Log/AsyncLog.cpp:44-74 | Until then it can always take its next step |
| LogModel.SecondBufferExists | src/common/Log/AsyncLog.cpp:60-65 | bufToWriteVec has a second buffer whenever the second spare was given away |
| AsyncLog.AsyncLog.Append | src/common/Log/AsyncLog.cpp:27-43 | On real buffers: the data is appended to the current one, which is queued just when it has no room left |
| AsyncLog.AsyncLog.Take | src/common/Log/AsyncLog.cpp:52-61 | The fields change as the model step says |
| AsyncLog.AsyncLog.Write | src/common/Log/AsyncLog.cpp:62 | The batch is put out in order, from the bytes in the buffers |
| AsyncLog.AsyncLog.Recycle | src/common/Log/AsyncLog.cpp:64-67 | One or two buffers of the batch are cleared and become the spares |
| AsyncLog.AsyncLog.Flush | src/common/Log/AsyncLog.cpp:73-74 | After the last write the output is exactly all that was appended |
| AsyncLog.AsyncLog.OutputPlusHeld | src/common/Log/AsyncLog.cpp:27-81 | The two theorems, of the output and the buffers on the heap |
| AsyncLog.AsyncLog.StopLosesNothing | src/common/Log/AsyncLog.cpp:50-81 | The same of the output and the fields |
| PoolLevel.HalvingTiles | src/common/tool/Mempool.h:190-194 | Replacing a block by its halves leaves an exact tiling |
| PoolLevel.PageTiles | src/common/tool/Mempool.h:165-168 | A page behind those already cut from new memory extends the tiling |
| PoolLevel.CPoolLevel.constructor | src/common/tool/Mempool.h:118-121 | All memory obtained is free blocks of the top level, maxLvCnt pages in order |
| PoolLevel.CPoolLevel.GetLevel | src/common/tool/Mempool.h:197-206 | The lowest level whose blocks are large enough, or -1 if none is |
| PoolLevel.CPoolLevel.Double | src/common/tool/Mempool.h:157-170 | New memory is queued page by page; nothing changes if malloc fails |
| PoolLevel.CPoolLevel.Split | src/common/tool/Mempool.h:176-196 | The recursion ends, succeeds just when a higher level has a block or malloc does, and moves floor(n/2)+1 blocks down in halves, also from a level it has refilled, never from an empty queue |
| PoolLevel.CPoolLevel.Alloc | src/common/tool/Mempool.h:122-140 | NULL just when nothing can serve; otherwise the first block of the lowest fitting level, refilled if empty, not in use and apart from all in use; new memory is asked for only when every level that could serve is empty; free and used blocks still tile all memory obtained |
| PoolLevel.CPoolLevel.Dealloc | src/common/tool/Mempool.h:141-155 | The block is free again and the tiling stays exact |
| PoolIndex.SameHandle | src/common/tool/Mempool.h:278-308 | Two creations have one handle just when they took the same place a multiple of 2^16 (or 2^32) creations apart |
| PoolIndex.Finds | src/common/tool/Mempool.h:287-307 | A handle finds the object of its creation or, once that is gone, nothing, unless a creation a multiple of 2^16 (2^32) later took the place; with fewer creations never a wrong one |
| PoolIndex.CPoolIndex.Double | src/common/tool/Mempool.h:231-247 | Twice the places; objects, handles and lives stay |
| PoolIndex.CPoolIndex.New | src/common/tool/Mempool.h:248-255 | NULL just when no place is free and malloc fails; otherwise one more live object, in the place longest free or, if none was, the first new one, and no other affected |
| PoolIndex.CPoolIndex.Delete | src/common/tool/Mempool.h:256-260 | That object is gone, no other affected, and its place is free |
| PoolIndex.CPoolIndex.GetByIdx | src/common/tool/Mempool.h:261-264 | The object in use at a place, or NULL |
| PoolIndex.CPoolIndex.FindByUniqueId | src/common/tool/Mempool.h:288-293 | On the real pool, across reuse and doubling: the live object created with that handle, else NULL |
| SharedPtr.Lifetimes | src/include/shared_ptr.h:124-133 | In every reachable state an object has been destroyed if and only if no shared_ptr points to it, and a block freed if and only if nothing does, each once |
| SharedPtr.DestructorStarts | src/include/shared_ptr.h:297-306 | An object being destroyed has exactly one shared_ptr left, the one being destroyed |
| SharedPtr.LastReleasedGood | src/include/shared_ptr.h:306-311 | Releasing after the deleter frees the block just when the object left no weak pointer elsewhere |
| SharedPtr.WeakReleasedGood | src/include/shared_ptr.h:124-133 | A weak pointer going, also from inside the object, frees the block only when both counts are 0 |
| SharedPtr.ExchangedGood | src/include/shared_ptr.h:349-353 | swap keeps all counts exact |
| SharedPtr.Memory.DestroyWeak | src/include/shared_ptr.h:124-133 | release_weak, with the block freed at the right time and never twice |
| SharedPtr.Memory.DestroyStrong | src/include/shared_ptr.h:293-317 | The recursion over members that are pointers themselves ends; the pointer is gone, and every pointer that lost its object; counts are exact afterwards; pointers no destroyed object owned stay |
| SharedPtr.Memory.RunDeleter | src/include/shared_ptr.h:306 | All members go, the last first, while the object still counts one shared_ptr |
| SharedPtr.Memory.MakeShared | src/include/shared_ptr.h:221-230 | One shared_ptr to a new object, and one weak pointer if the object points to itself; all else stays |
| SharedPtr.Memory.EnableWeakThis | src/include/shared_ptr.h:599-608 | Assigning weak_this by way of two temporaries leaves just that one weak pointer more |
| SharedPtr.Memory.MoveStrong | src/include/shared_ptr.h:260-265 | The pointer moves and no count changes |
| SharedPtr.Memory.AssignStrong | src/include/shared_ptr.h:326-330 | The target points to what was moved, and no temporary is left; if the target was the last shared_ptr to another object, that is destroyed, and its block freed unless weak pointers are left |
| SharedPtr.Memory.Reset | src/include/shared_ptr.h:345 | The target is null, and no temporary is left; if it was the last shared_ptr to its object, that is destroyed, and its block freed unless weak pointers are left |
| SharedPtr.Memory.AssignWeak | src/include/shared_ptr.h:163-167 | Copy and swap changes one pointer and keeps counts exact |
| SharedPtr.Memory.Lock | src/include/shared_ptr_move_only.h:203-211 | A shared_ptr to the object if and only if it has not been destroyed |
| SharedPtr.Memory.Share | src/include/shared_ptr_move_only.h:230-235 | A cast that shares: one more pointer to the same object, so counts exceed 1 |
| Cyclic.EraseKeepsReading | src/common/Service/Service.h:173-182 | Erasing an entry and adjusting the cursor takes just that entry out of the cyclic reading |
| ServiceVec.RegisterKeepsOrder | src/common/Service/Service.h:169-172 | A registration keeps the entries, read from the cursor, in order and within one period if and only if the cursor is at the front with no entry overdue, or all entries before the cursor are due as late |
| ServiceVec.RegisterOutOfOrder | src/common/Service/Service.h:169-172 | Period 10, a and b registered at 0 and 5, a called at 10, c registered at 12: the reading is out of order, and a run at 21 leaves a, due at 20, waiting behind c, due at 22 |
| ServiceVec.NoBound | src/common/Service/Service.h:169-194 | There is no bound on that wait: with one registration a period the first object is not called again, however long that goes on |
| ServiceVec.DueByIsUnique | src/common/Service/Service.h:185-194 | An entry next due within one period after t has been called exactly floor((t - first) / CD) + 1 times, or not at all if first > t |
| ServiceVec.ServedKeeps | src/common/Service/Service.h:186-191 | Serving the entry under the cursor keeps the order, the counts and the order of calls, and brings the loop nearer its end |
| ServiceVec.ErasedKeeps | src/common/Service/Service.h:173-182 | So does erasing any entry, at any point |
| ServiceVec.CallsAndOwed | src/common/Service/Service.h:185-194 | In whatever order the entries are, the calls an object has had and those its entry is still owed are exactly those it has been due |
| ServiceVec.InOrderGives | src/common/Service/Service.h:187-193 | With the entries in order, once the one under the cursor is not due none is, no call is owed, and all calls came in order of due times |
| ServiceVec.ServiceVec.Register | src/common/Service/Service.h:169-172 | At any moment, also in the middle of a round: a new entry due one period on, and the order is kept if and only if CanRegister |
| ServiceVec.ServiceVec.UnRegister | src/common/Service/Service.h:173-182 | The first entry of the object goes, others keep their cyclic order |
| ServiceVec.ServiceVec.RunSevice | src/common/Service/Service.h:183-196 | It ends, also when callbacks unregister and register objects; calls made and owed are all that was due; if the order has been kept by all registrations, nothing is due or owed at the end and all calls came in order of due times |
| ServicePatch.KeptJustWhenDividing | src/common/Service/Service.h:91-96 | Where no 32-bit value overflows, the load balancing keeps every millisecond, whatever the time waited, if and only if the number of objects divides kTimeAll, or the time of two calls is too long to be computed; also with more objects than milliseconds |
| ServicePatch.LostOtherwise | src/common/Service/Service.h:91-96 | For every other number of objects, a time waited at which milliseconds are lost: that of two calls, or 1 ms where the zero guard applies |
| ServicePatch.KeptJustWithoutOverflow | src/common/Service/Service.h:91-96 | With a number of objects that divides kTimeAll, a run keeps the time waited if and only if the product and its quotient fit their 32 bits, or it makes no calls |
| ServicePatch.CountIsTurns | src/common/Service/Service.h:100-104 | After c calls in turn an object d places behind has been called (c + n - 1 - d) / n times |
| ServicePatch.Fair | src/common/Service/Service.h:100-104 | No object is ever more than one call ahead of another |
| ServicePatch.OncePerPeriod | src/common/Service/Service.h:86-106 | kTimeAll milliseconds bring n calls, one for each object |
| ServicePatch.ServicePatch.Register | src/common/Service/Service.h:82-85 | The object goes to the end |
| ServicePatch.ServicePatch.UnRegister | src/common/Service/Service.h:72-81 | The first such object goes, others keep their cyclic order |
| ServicePatch.ServicePatch.RunSevice | src/common/Service/Service.h:86-106 | While the objects stay the same, calls made times their worth, time left and time lost are all time elapsed, the time left is less than a call's worth and differs from the time waited by whole calls', and the calls go round in turn; with a number of objects that divides kTimeAll a run loses time if and only if its 32-bit sum or product overflows |
| RpcQueue.KeyParts | src/common/Buffer/NetPack.h:59 | The key tells opcode and index apart |
| RpcQueue.CallKeeps | src/rpc/RpcQueue.h:80-98 | A call has a new key, and keeps the invariant between the two processes |
| RpcQueue.HandleKeeps | src/rpc/RpcQueue.h:52-67 | So does handling a request, running a callback and dropping a reply nobody waits for |
| RpcQueue.SendBackKeeps | src/rpc/RpcQueue.h:68-74 | So does a reply, early or at the end; it is the first for its request |
| RpcQueue.ArriveKeeps | src/rpc/RpcQueue.h:39-43 | So does the I/O thread at any moment |
| RpcQueue.Correlated | src/rpc/RpcQueue.h:60-65 | A callback that has run is the one registered for its call, ran once, with the body given as reply to that very request, which was handled once with the body sent; no second reply can come |
| RpcQueue.HandledOnce | src/rpc/RpcQueue.h:55-58 | Every request handled was made by the other side, and is handled once |
| RpcQueue.Quiescent | src/rpc/RpcQueue.h:39-98 | When nothing is on its way or queued and no handler runs, every call has been handled once and replied to unless the reply was empty, its size taken as 16 bits, and every callback registered with its call has run once if there was a reply, and else still waits |
| RpcQueue.RpcQueue.Insert | src/rpc/RpcQueue.h:39-43 | The message goes to the back of the queue |
| RpcQueue.RpcQueue.CallRpc | src/rpc/RpcQueue.h:80-98 | The request sent, the key returned and the callback registered |
| RpcQueue.RpcQueue.RegistResponse | src/rpc/RpcQueue.h:75-79 | A later callback replaces an earlier one |
| RpcQueue.RpcQueue.Begin | src/rpc/RpcQueue.h:52-66 | A request opens a reply with its own head; a reply runs its callback with its body and removes it; an unknown opcode is dropped |
| RpcQueue.RpcQueue.SendBackBuffer | src/rpc/RpcQueue.h:68-74 | A body that is not empty and fits 16 bits is sent as it is, with the request's opcode and index; an empty one is not; the buffer is cleared so that none follows |
| RpcQueue.RpcQueue.End | src/rpc/RpcQueue.h:57-58 | The reply goes, if it has a body, unless it went early |
| RpcQueue.Net.AnyRun | src/rpc/RpcQueue.h:39-98 | After any interleaving of both main loops, handlers and I/O threads, each step with its own opcode, body and callback, every callback run on either side is correlated with its call |
| RpcQueue.Net.NothingUnanswered | src/rpc/RpcQueue.h:39-98 | In every reachable state with empty queues and no handler running, all calls of both sides have been answered |
| LogicMap.AddingIndexes | script/LogicMap.lua:139-148 | Appending behind any border of a list with holes lists the room once and overwrites no other |
| LogicMap.ErasingIndexes | script/LogicMap.lua:149-163 | Erasing its one entry takes the room out of the index and no other |
| LogicMap.EnteringIsNoted | script/LogicMap.lua:46-55 | The notes of who is where stay right if and only if the user was in no room before |
| LogicMap.EnterAgain | script/LogicMap.lua:46-55 | EnterMap, called again for a user while all rooms are full, leaves them in two rooms, noted in the second only |
| LogicMap.EnterTwice | script/LogicMap.lua:46-55 | With one place a room: what the first user entering twice leads to |
| LogicMap.LogicMap.GetFreeMapIdx | script/LogicMap.lua:97-107 | A room that is not full with the fewest free places; a new one only when all are full |
| LogicMap.LogicMap.AddUserToMap | script/LogicMap.lua:109-125 | The user joins just when the room exists, is not full and does not have them; the index agrees with occupancy |
| LogicMap.LogicMap.DelUserToMap | script/LogicMap.lua:126-137 | The user leaves; the index agrees with occupancy |
| LogicMap.LogicMap.EnterMap | script/LogicMap.lua:46-55 | Which room is entered, exactly when that succeeds, for every user wherever they are, when the notes stay right, and that a refusal changes nothing where rooms have places |
| LogicMap.LogicMap.ExitMap | script/LogicMap.lua:56-64 | The user is in no room; fails just for a user who is in none |

## Left out

- TimerWheel.TimeWheel.Func: a callback does not delete the node next in line on the ready list, for which the source has no protection, and returns less than 2^31.
- TimerWheel.TimeWheel.DelTimer: so during a callback it does not take the first node of the ready chain.
- TimerWheel.TimeWheel.AddTimer: takes the delay in whole milliseconds; the conversion from float seconds is not modelled.
- Floyd.Graph.Floyd: weights of 99999 and more are excluded, as they exceed the constant that stands for no edge.
- Floyd.Graph.GetPath: asks for a reachable pair; the guard at src/common/tool/Floyd.h:71 does not exclude others, and HopExistsIffReachable says what happens with them.
- NetBuffer.Buffer.Prepend: asks that the data fit in front; the other branch (src/common/Buffer/buffer.h:60-66) reads the position again after a possible move.
- Links.ServLink.PostSend: a posted send is the bytes readable at that moment; that later growth moves the memory under an outstanding send is not modelled.
- Links.ClientLink.PostSend: the link is connected, so that its early return does not come up.
- Links.ClientLink.OnSendDoneIO: connecting, reconnecting and CloseLink, which clears both buffers, are left out: a run is one connection.
- AsyncLog.AsyncLog.Flush: the last write is one step; an Append in the middle of it is taken to come before or after. Output is the bytes of the buffers in order; files are left out.
- PoolLevel.CPoolLevel.constructor: asks for at least one top-level block; a pool of none would pop from an empty queue and hand out a made-up address. Use from several threads is left out.
- PoolLevel.CPoolLevel.GetLevel: its assertion is taken as off, as in a release build, so that larger requests go to malloc.
- PoolIndex.CPoolIndex.Double: as New, does not grow past the places a handle can name.
- PoolIndex.CPoolIndex.New: places never used are taken to be marked as free; more places than a handle's digits are excluded, as the assertion at src/common/tool/Mempool.h:282 does. A constructor that throws is left out.
- SharedPtr.Memory.DestroyStrong: memory is maps from numbers to blocks, pointers and members, so that addresses and casts between types are not modelled; destructors do nothing but destroy members; a raw pointer is given to one shared_ptr only.
- SharedPtr.Memory.MakeShared: the nothrow allocation of the block succeeds.
- ServiceVec.ServiceVec.RunSevice: callbacks may unregister any objects and register others at the time of the run; the period is positive, as with a period of 0 the loop need not end; the clock does not go back.
- ServicePatch.ServicePatch.UnRegister: called from a callback, does not remove the last object, after which the loop would index an empty vector.
- RpcQueue.Net.AnyRun: one connection and fewer than 2^32 calls a side, as Net.Call asks.
- RpcQueue.Net.Call: fewer than 2^32 calls a side, no opcode handled by both sides, and a call only of what the other side handles; one connection, and messages as opcode, index and body rather than bytes.
- RpcQueue.RpcQueue.SendBackBuffer: the flatbuffers builder is taken as part of the body.
- LogicMap.LogicMap.EnterMap: a user's data is never nil; the ShareData table shared between Lua states is an ordinary one.
- ServiceList and ServiceMap, whose cursors and pending sets do not keep such properties; Rank and the containers of bytebuffer.h for the same reason.
- CPoolPage, which has no properties beyond those of a queue.
- Sockets, threads, condition variables, the libevent and libuv loops, Lua bindings, compression, file formats, time zones and floating point.
