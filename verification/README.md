# Verified models of the containers and allocators

This project models, in Dafny, the lock-free and sequential containers and the two allocators of
the hpc library, and proves what they promise. `dafny verify dfyconfig.toml` checks all of it.

| module | what it models |
|---|---|
| `Arith`, `Bits` | division with remainder; 64-bit words, masks and the shift-smear rounding, digit by digit |
| `Allocation` | requests for n elements of a given size, whose product in bytes is a size_t that wraps |
| `Storage` | raw memory and object lifetimes: construct only over raw storage, move only from a live object, destroy only what was constructed |
| `MpmcProtocol`, `MpmcInvariant`, `MpmcRefinement` | the multi-producer multi-consumer ring as a transition system over any number of threads; its life-cycle invariant; its refinement to a FIFO and the meaning of every outcome |
| `MpmcRing` | the same ring as code over its fields, with other threads running between any two shared accesses |
| `ShmProtocol`, `ShmRing` | the shared-memory single-producer single-consumer ring, step by step and as code, and the drop-oldest publisher |
| `Circular`, `DynamicQueue`, `FixedQueue` | circular buffers, the growable queue and the fixed-capacity queue |
| `Growth`, `Vector` | the capacity-doubling loop on a size_t that wraps; the contiguous array with in-place overlapping shifts |
| `DequeIterator`, `DequeLayout`, `Deque`, `DequeRuns` | the chunked deque: iterator arithmetic, chunk contents, the class, whole runs |
| `PoolAllocator`, `ArenaAllocator` | the pool with links inside its free blocks, byte by byte, and the bump-pointer arena |

How the models are built:

- **MPMC ring.** Every load, compare-and-swap, construction, move, destruction and sequence store is
  a step of its own, so a thread's locals may be arbitrarily stale. Claim logs are history variables.
  `MpmcRing.Ring.Valid` says that the fields equal the state that the recorded schedule of all
  threads leads to. Other threads enter through `Interfere`, whose contract allows every schedule of
  their steps; its body is the schedule in which none of them moves, and no caller can see the body.
- **Deque.** Chunk sizes are any constant of at least 1. An element's address is a chunk reference
  and an offset; `Addresses` lists them in order, and references returned by the pushes are addresses.
- **Element types.** In the vector, the queues and the deque a flag says whether the element type is
  trivially copyable; both branches of each `if constexpr` are modelled, with `memcpy` and `memmove` as
  whole-block assignments and destructor calls skipped.
- **The heap.** Buffers are asked for in bytes, n times the element size modulo 2^64. Element sizes are
  parameters, and a constant `heap` is the most bytes that the heap of a vector or a queue grants (for the
  vector less than the whole address space). Calls that grow return an outcome: done, `std::bad_alloc`, and
  where the arithmetic wraps, a loop that never ends or a buffer that is shorter than the capacity recorded
  for it or cannot hold the elements. In the last case the source goes on to write outside the buffer; the
  model stops there. The other containers are granted what they ask for, and their constructors say exactly when
  that is what they need.
- **Ghost state.** `contents` is the plain sequence an object stands for; `pushes` and `relocated`
  count calls and moved elements for the amortisation argument.

Where the answers are not what a reader may expect:

- `try_emplace` and `try_pop` may answer "full" or "empty" although the queue is neither, while
  another thread is stalled inside its own call (`FullAnswerOnNonFullQueue`,
  `EmptyAnswerOnNonEmptyQueue`). When they give up is proved for all states (`PushFailsIff`,
  `PopFailsIff`), and when that answer is wrong is too (`FullAnswerExact`, `EmptyAnswerExact`): "full" only
  while a consumer is inside the cell of tail_, "empty" only while a producer is inside that of head_.
- The power-of-two rounding is right exactly up to 2^63 and then wraps to 0 (`RoundUpIsLeast`). So a
  request above 2^63 gives a multi-producer ring without cells (`MpmcRing.Ring.constructor`), and
  `reserve(n)` on a non-empty queue from n = 2^63 on relocates into too small a buffer (`ReserveWraps`).
- The vector's doubling loop wraps as well: from an empty vector, `resize(n)` with n above 2^63 never
  returns (`ResizeSpins`, `DoublingEndsIff`).
- Below those bounds the size in bytes may wrap. What is granted holds n elements exactly if n times the
  element size is below 2^64 (`GrantHoldsIff`), and no container checks that. With elements of 8 bytes,
  `queue::reserve(2^61 - 1)`, `vector::reserve(2^61)` and, on an empty vector, `resize(2^60 + 1)` are granted 0
  bytes and go on (`DynamicQueue.ReserveShort`, `Vector.ReserveShort`, `ResizeShort`); so are a multi-producer
  ring of 2^57 cells of 128 bytes (`RingShort`), `fixed_pool(2^61, 8)` (`PoolShort`) and the map of
  `deque(2^61 - 3)` with one element to a chunk (`MapShort`); a shared-memory ring of 2^61 messages maps its
  header only (`RegionShort`). The contracts of these members say exactly when it happens.
- `arena::allocate` with a size that wraps the pointer past 2^64 may succeed and move the pointer back
  (`HugeRequestMisleads`); `Allocate` states exactly when.
- `docs/shm_ipc_design.md` (line 33) says the shared-memory ring forces its capacity to a power of two.
  The code neither rounds the capacity nor masks; it takes `%` of the capacity as given. The model
  follows the code, for every capacity of at least 1.
- A ring of capacity 1 in shared memory holds nothing, so the publisher keeps no message then
  (`Publish` with `capacity - 1 == 0`).

Assumed of callers, as the code does: pops, `front` and `back` on non-empty containers where the code
does not check; positions inside the vector; `deallocate` only of outstanding blocks; no argument that
aliases an element of the same container; no use of a moved-from or torn-down deque; element
constructors and moves that do not throw.

## Model

| member | source | states |
|---|---|---|
| `MpmcRefinement.MpmcFifo` | include/hpc/core/mpmc_ring_buffer.hpp:89-162 | For every capacity of at least 2 and every schedule of any threads: the enqueued values are the dequeued values followed by what is still queued, and the value any consumer is handed for position h is the h-th enqueued one; nothing is lost, duplicated or reordered |
| `MpmcRefinement.StepRefines` | include/hpc/core/mpmc_ring_buffer.hpp:89-162 | Every single step of every thread is a step of an abstract FIFO that refuses to dequeue anything but its front; only a winning compare-and-swap is visible |
| `MpmcRefinement.RunRefines` | include/hpc/core/mpmc_ring_buffer.hpp:89-162 | Every schedule from every invariant state is accepted by the abstract FIFO and ends in the contents of the final state |
| `MpmcRefinement.RunConserves` | include/hpc/core/mpmc_ring_buffer.hpp:35-45 | From the constructed queue, enqueues equal dequeues followed by the contents |
| `MpmcRefinement.ReplayConserves` | include/hpc/core/mpmc_ring_buffer.hpp:89-162 | What acceptance by the abstract FIFO means for the enqueued and dequeued values, from any initial contents |
| `MpmcRefinement.EnqueuesAreClaims` | include/hpc/core/mpmc_ring_buffer.hpp:100-102 | The k-th enqueued value is the one claimed at position tail + k; tail_ and head_ count the enqueues and dequeues of the whole run |
| `MpmcRefinement.ClaimsStep` | include/hpc/core/mpmc_ring_buffer.hpp:100-143 | A step advances tail_ (head_) by one exactly when it enqueues (dequeues), and logs the claim |
| `MpmcRefinement.PushFailsIff` | include/hpc/core/mpmc_ring_buffer.hpp:94-114 | The loaded sequence is below t exactly when t is still tail_ and position t - capacity has not been released |
| `MpmcRefinement.PopFailsIff` | include/hpc/core/mpmc_ring_buffer.hpp:135-158 | The loaded sequence is below h + 1 exactly when h is still head_ and position h has not been published |
| `MpmcRefinement.FullAnswerExact` | include/hpc/core/mpmc_ring_buffer.hpp:111-114 | The loaded sequence is below tail_ exactly when the queue is full or the consumer of the cell of tail_ has not released it, never both |
| `MpmcRefinement.EmptyAnswerExact` | include/hpc/core/mpmc_ring_buffer.hpp:155-158 | The loaded sequence is below head_ + 1 exactly when the queue is empty or the producer of position head_ has not published it, never both |
| `MpmcRefinement.AnswersExactUnless` | include/hpc/core/mpmc_ring_buffer.hpp:94-158 | With no consumer inside a claimed cell, full is answered exactly when the queue is full; with no producer inside one, empty exactly when it is empty |
| `MpmcRefinement.RefusedPush` | include/hpc/core/mpmc_ring_buffer.hpp:111-114 | A push that gives up is right exactly if no consumer is still inside the cell of tail_; in particular the queue is full if none is inside any |
| `MpmcRefinement.RefusedPop` | include/hpc/core/mpmc_ring_buffer.hpp:155-158 | A pop that gives up is right exactly if the producer of position head_ is not still inside; in particular the queue is empty if none is inside any |
| `MpmcRefinement.RetryMeansProgress` | include/hpc/core/mpmc_ring_buffer.hpp:116-118 | Going round either loop means another thread's claim moved the index past the local one, and the reload is strictly larger |
| `MpmcRefinement.QuietOutcomes` | include/hpc/core/mpmc_ring_buffer.hpp:73-80 | With no call in flight the two give-up tests are exactly full and empty, and every claimed position has been delivered |
| `MpmcRefinement.EmptyAnswerOnNonEmptyQueue` | include/hpc/core/mpmc_ring_buffer.hpp:155-158 | A reachable state in which a pop is about to answer empty although a completed push is queued: the answer is not exact while a producer is stalled |
| `MpmcRefinement.FullAnswerOnNonFullQueue` | include/hpc/core/mpmc_ring_buffer.hpp:111-114 | A reachable state in which a push is about to answer full although the queue is not: the answer is not exact while a consumer is stalled |
| `MpmcRefinement.SoloPush` | include/hpc/core/mpmc_ring_buffer.hpp:89-109 | A push that runs alone on a free cell claims one position, stores the value there, publishes it and changes nothing else |
| `MpmcRefinement.SoloClaimHead` | include/hpc/core/mpmc_ring_buffer.hpp:131-143 | A pop that runs alone on a published cell claims exactly position head_ |
| `MpmcInvariant.InitOk` | include/hpc/core/mpmc_ring_buffer.hpp:35-45 | The constructed queue, cell i numbered i, satisfies the invariant |
| `MpmcInvariant.StepOk` | include/hpc/core/mpmc_ring_buffer.hpp:89-162 | Every step of every thread keeps: head <= tail <= head + capacity, each cell in exactly one stage, what each thread may rely on however stale its locals, and one delivery for each claimed position |
| `MpmcInvariant.Stage` | include/hpc/core/mpmc_ring_buffer.hpp:185-190 | The sequence number alone tells a cell's stage: free at n, claimed at n - capacity, published or being drained at n - capacity + 1 |
| `MpmcInvariant.TailCell` | include/hpc/core/mpmc_ring_buffer.hpp:94-114 | What a fresh sequence load tells a producer about tail_ |
| `MpmcInvariant.HeadCell` | include/hpc/core/mpmc_ring_buffer.hpp:135-158 | What a fresh sequence load tells a consumer about head_ and its cell |
| `MpmcInvariant.ClaimTailOk` | include/hpc/core/mpmc_ring_buffer.hpp:98-103 | If the sequence was seen equal to t and the compare-and-swap on t wins later, the cell is free for t at that moment, and the invariant survives the claim |
| `MpmcInvariant.ClaimHeadOk` | include/hpc/core/mpmc_ring_buffer.hpp:139-144 | If the sequence was seen equal to h + 1 and the compare-and-swap on h wins later, position h holds its published element at that moment |
| `MpmcInvariant.OneOwner` | include/hpc/core/mpmc_ring_buffer.hpp:104-105 | Two threads that own the storage of the same cell are the same thread |
| `MpmcInvariant.OwnerStage` | include/hpc/core/mpmc_ring_buffer.hpp:104-107 | A thread inside a claimed cell finds it in the stage its program counter says |
| `MpmcInvariant.OwnedApart` | include/hpc/core/mpmc_ring_buffer.hpp:98-103 | No other thread's claim or winning compare-and-swap can rest on a cell that a thread owns |
| `MpmcInvariant.ConstructOk` | include/hpc/core/mpmc_ring_buffer.hpp:105 | Placement-new always hits a raw slot |
| `MpmcInvariant.PublishOk` | include/hpc/core/mpmc_ring_buffer.hpp:107 | Storing t + 1 makes position t available with the value its producer claimed |
| `MpmcInvariant.MoveOk` | include/hpc/core/mpmc_ring_buffer.hpp:146-147 | The element moved out at h is live and is the one pushed at h |
| `MpmcInvariant.DestroyOk` | include/hpc/core/mpmc_ring_buffer.hpp:148 | The destructor runs on a moved-from object that is still there |
| `MpmcInvariant.ReleaseOk` | include/hpc/core/mpmc_ring_buffer.hpp:151 | Storing h + capacity frees the cell for position h + capacity |
| `MpmcRing.Ring.constructor` | include/hpc/core/mpmc_ring_buffer.hpp:35-45 | For every request and cell size: up to 2^63 the capacity is the least power of two at or above the request, never below 2; above 2^63, and only there, it wraps to 0. As many cells are granted as fit, and the fields are the protocol's initial state exactly if the request is at most 2^63 and the cells' size in bytes is below 2^64 |
| `MpmcRing.RingShort` | include/hpc/core/mpmc_ring_buffer.hpp:35-45 | An input at which it is not: a request of 2^57 with cells of 128 bytes is granted no cell, and 2^57 are numbered |
| `Allocation.HeldIff` | include/hpc/core/mpmc_ring_buffer.hpp:38 | As many elements fit into what is granted as were asked for exactly if their size in bytes is below 2^64, and never more |
| `MpmcRing.Ring.CellIndex` | include/hpc/core/mpmc_ring_buffer.hpp:94 | index & mask_ is the position modulo the capacity |
| `MpmcRing.Ring.Yield` | include/hpc/core/mpmc_ring_buffer.hpp:89-162 | After any steps of other threads: this thread's program counter is unchanged and the claim logs have only grown, with no entry of its own |
| `MpmcRing.Ring.LoadForPush` | include/hpc/core/mpmc_ring_buffer.hpp:95-96 | The sequence load, on the fields; below t exactly when the cell of tail_ was blocked at that moment |
| `MpmcRing.Ring.LoadForPop` | include/hpc/core/mpmc_ring_buffer.hpp:136-137 | The sequence load, on the fields; below h + 1 exactly when position head_ was unpublished at that moment |
| `MpmcRing.Ring.CasTail` | include/hpc/core/mpmc_ring_buffer.hpp:100-103 | The compare-and-swap on the fields is the protocol's claim step, and wins exactly when tail_ has not moved |
| `MpmcRing.Ring.CasHead` | include/hpc/core/mpmc_ring_buffer.hpp:141-144 | The compare-and-swap on the fields is the protocol's claim step, and wins exactly when head_ has not moved |
| `MpmcRing.Ring.TryEmplace` | include/hpc/core/mpmc_ring_buffer.hpp:89-119 | Under any interference: true means exactly one position was claimed by this thread with this value; false means none was and at a recorded moment of the call the cell of tail_ was unreleased, the queue being full then unless a consumer was inside a claimed cell; retries are at most the other threads' claims during the call |
| `MpmcRing.Ring.TryPop` | include/hpc/core/mpmc_ring_buffer.hpp:131-162 | Under any interference: true means exactly one position was claimed and the value handed out is the one pushed there; false means none was and at a recorded moment position head_ was unpublished, the queue being empty then unless a producer was inside a claimed cell; retries are at most the other threads' claims |
| `Bits.RoundUpIsLeast` | include/hpc/core/dynamic_queue.hpp:237-245 | The shift-smear rounding gives the least power of two at or above v exactly when v is at most 2^63; beyond that it wraps to 0 |
| `Bits.LeastIff` | include/hpc/core/dynamic_queue.hpp:237-245 | A power of two is the least at or above v exactly if it is at least v and below 2v |
| `Bits.SmearStep` | include/hpc/core/dynamic_queue.hpp:241-243 | One v |= v >> r doubles the run of leading ones |
| `Bits.SmearFills` | include/hpc/core/dynamic_queue.hpp:241-243 | The six shifts fill every digit below the top one, for every positive 64-bit value |
| `Bits.RoundUpToPowerOfTwo` | include/hpc/core/mpmc_ring_buffer.hpp:196-204 | The looped version agrees with the unrolled one from 2 on and has a floor of 2; least power of two up to 2^63 |
| `Bits.RoundUpNeedsTwo` | include/hpc/core/queue.hpp:39-50 | From 2 to 2^63 the result is a power of two of at least 2, which keeps the life-cycle stages of a cell apart |
| `Bits.MaskIsMod` | include/hpc/core/dynamic_queue.hpp:247-250 | & (cap - 1) is the remainder modulo cap for every power of two and every operand |
| `Bits.HighMaskRoundsDown` | src/arena_allocator.cpp:13 | & ~(alignment - 1) rounds down to a multiple of the alignment |
| `Circular.MaskedDistance` | include/hpc/core/dynamic_queue.hpp:113 | The size_t subtraction may wrap: the masked sum is still the distance from head round to tail |
| `Circular.Advance` | include/hpc/core/dynamic_queue.hpp:247-250 | The masked successor is the next index round the buffer |
| `Circular.Count` | include/hpc/core/queue.hpp:136-139 | (tail - head + cap) & mask counts exactly the elements of a circular buffer, wrapped or not |
| `Circular.HoldsPush` | include/hpc/core/dynamic_queue.hpp:153-155 | With room left, the tail slot is raw and constructing there appends, wherever the head is |
| `Circular.HoldsPop` | include/hpc/core/dynamic_queue.hpp:177-178 | The head slot holds the first element; destroying it and advancing removes just that one |
| `Circular.OccupiedPop` | include/hpc/core/queue.hpp:242-247 | Destroying husks from the head keeps the rest of the constructed slots accounted for |
| `Circular.HuskStep` | include/hpc/core/queue.hpp:92-96 | Moving an element out leaves a constructed husk and no other change |
| `DynamicQueue.Queue.Copy` | include/hpc/core/dynamic_queue.hpp:56-64 | Equal contents, whatever rhs's head offset, laid out from index 0 of the least buffer that holds them; it never asks for more than rhs has |
| `DynamicQueue.Queue.Size` | include/hpc/core/dynamic_queue.hpp:111-114 | The number of elements, and head_ == tail_ exactly when there are none |
| `DynamicQueue.Queue.Empty` | include/hpc/core/dynamic_queue.hpp:110 | True exactly for no elements |
| `DynamicQueue.Queue.Capacity` | include/hpc/core/dynamic_queue.hpp:115-119 | Never below the number of elements |
| `DynamicQueue.Queue.CapacityIff` | include/hpc/core/dynamic_queue.hpp:115-119 | One more element fits beside k others, with a slot left for the sentinel, exactly if k is below the capacity |
| `DynamicQueue.Queue.CopyRuns` | include/hpc/core/dynamic_queue.hpp:308-319 | The memcpy path leaves the elements in order from index 0, from every wrapped or unwrapped state |
| `DynamicQueue.Queue.MoveEach` | include/hpc/core/dynamic_queue.hpp:320-328 | The element-wise path leaves the same buffer and nothing to destroy behind |
| `DynamicQueue.Queue.Relocate` | include/hpc/core/dynamic_queue.hpp:303-330 | Both relocation paths produce the same buffer, and the old one may be freed |
| `DynamicQueue.Queue.GrowTo` | include/hpc/core/dynamic_queue.hpp:303-336 | For every size that can be asked for: bad_alloc exactly if its bytes modulo 2^64 are more than the heap grants; done exactly if the bytes are below 2^64, granted, and enough for the elements, and then contents unchanged, head at 0, elements contiguous, one relocation counted for each; nothing changed otherwise |
| `DynamicQueue.Queue.EnsureSpace` | include/hpc/core/dynamic_queue.hpp:294-299 | Room for one more; the capacity starts at 8 and exactly doubles, modulo 2^64, when the sentinel slot would be needed; the outcome is that of the request for that buffer |
| `DynamicQueue.Queue.Push` | include/hpc/core/dynamic_queue.hpp:151-163 | Appends, in the same buffer exactly while the number of elements is below the capacity and otherwise in one of 8 slots or twice as many, or fails exactly as growing does with nothing changed; keeps the amortisation bound |
| `DynamicQueue.Queue.Pop` | include/hpc/core/dynamic_queue.hpp:175-186 | Hands out and removes the first element; keeps the amortisation bound |
| `DynamicQueue.Queue.Front` | include/hpc/core/dynamic_queue.hpp:143-144 | The first element |
| `DynamicQueue.Queue.Back` | include/hpc/core/dynamic_queue.hpp:146-147 | The last element, found by wrapping subtraction under the mask |
| `DynamicQueue.Queue.Clear` | include/hpc/core/dynamic_queue.hpp:188-198 | Every element destroyed once, no buffer change |
| `DynamicQueue.Queue.Reserve` | include/hpc/core/dynamic_queue.hpp:121-125 | For every n a size_t can hold, contents unchanged; over a heap that grants the request there is room for n afterwards exactly if there was before, or n is below 2^63 and the bytes of the rounded buffer are below 2^64; a call below 2^63 that returns never makes the buffer smaller, and one within the capacity changes nothing |
| `DynamicQueue.ReserveShort` | include/hpc/core/dynamic_queue.hpp:121-125 | An input below 2^63 at which it goes wrong: n = 2^61 - 1 with elements of 8 bytes is granted 0 bytes for 2^61 slots, whatever the heap and the contents |
| `Allocation.GrantHoldsIff` | include/hpc/core/dynamic_queue.hpp:274-283 | What is granted is at least the bytes of n elements exactly if those are below 2^64 |
| `DynamicQueue.SlotsRightIff` | include/hpc/core/dynamic_queue.hpp:124 | reserve(n) asks for the least sufficient power of two exactly if n is below 2^63; for 2^63 to 2^64 - 2 it asks for none and for 2^64 - 1 for one slot |
| `DynamicQueue.ReserveWraps` | include/hpc/core/dynamic_queue.hpp:121-125 | The inputs at which it goes wrong: any non-empty queue and any n from 2^63 on relocates into a buffer that cannot hold the elements; in a buffer of one slot an element is no longer counted |
| `DynamicQueue.SlotsAtMost` | include/hpc/core/dynamic_queue.hpp:136-138 | Any power of two with room for the elements and the sentinel is at least the buffer that shrinking and copying ask for |
| `DynamicQueue.SlotsGranted` | include/hpc/core/dynamic_queue.hpp:136-138 | So their request is granted in full by the heap that granted the old buffer: neither can run into the wrap |
| `DynamicQueue.Doubling` | include/hpc/core/dynamic_queue.hpp:298 | The next capacity is 8, the double, or 0 after 2^63 |
| `DynamicQueue.Queue.ShrinkToFit` | include/hpc/core/dynamic_queue.hpp:127-139 | Contents unchanged; the buffer is the least power of two that can hold them, or gone |
| `DynamicQueue.Equal` | include/hpc/core/dynamic_queue.hpp:211-221 | True exactly for equal contents, whatever the buffers and offsets |
| `DynamicQueue.Do` | include/hpc/core/dynamic_queue.hpp:121-198 | Each operation does to the contents what it does to a plain FIFO, or fails exactly as its request for a buffer does with nothing changed; a reserve that is done leaves room, shrinking leaves the least buffer; pushes and pops keep the amortisation invariant |
| `DynamicQueue.FifoMeans` | include/hpc/core/dynamic_queue.hpp:151-198 | The plain FIFO: a push adds its value behind the others, a pop takes off the first, clear empties, and nothing else does anything |
| `DynamicQueue.EndingMeans` | include/hpc/core/dynamic_queue.hpp:274-299 | How an operation ends, in bytes: it can fail only when it asks for a buffer, and then throws exactly beyond what the heap grants and is done exactly if the bytes do not wrap and the slots suffice |
| `DynamicQueue.Client` | include/hpc/core/dynamic_queue.hpp:121-198 | Any run of push, pop, reserve, shrink_to_fit and clear from a default-constructed queue, with any size_t arguments, any element size and any heap, agrees with the plain FIFO up to the first call that fails, and says exactly which and how; with only pushes and pops at most two relocations are made for each push |
| `FixedQueue.Queue.constructor` | include/hpc/core/queue.hpp:48-50 | The buffer is the least power of two with a sentinel slot to spare, and holds nothing |
| `FixedQueue.Queue.Size` | include/hpc/core/queue.hpp:136-139 | The number of elements |
| `FixedQueue.Queue.Full` | include/hpc/core/queue.hpp:134 | True exactly at the declared capacity, although the buffer is larger |
| `FixedQueue.Queue.TryPush` | include/hpc/core/queue.hpp:154-161 | Succeeds and appends exactly below the declared capacity; otherwise nothing changes |
| `FixedQueue.Queue.Push` | include/hpc/core/queue.hpp:174-178 | Overflow exactly when full, with the contents unchanged |
| `FixedQueue.Queue.TryPop` | include/hpc/core/queue.hpp:229-237 | Hands out the first element exactly when there is one |
| `FixedQueue.Queue.Pop` | include/hpc/core/queue.hpp:220-226 | Underflow exactly when empty |
| `FixedQueue.Queue.Clear` | include/hpc/core/queue.hpp:240-250 | From any mix of elements and moved-from husks: every one destroyed once, then empty at index 0 |
| `FixedQueue.Queue.CopyOf` | include/hpc/core/queue.hpp:77-86 | Equal contents, whatever rhs's head offset |
| `FixedQueue.Queue.MovedFrom` | include/hpc/core/queue.hpp:88-98 | Takes over the contents; rhs is left empty with every husk destroyed |
| `FixedQueue.Queue.CopyAssign` | include/hpc/core/queue.hpp:102-114 | Equal contents afterwards, self-assignment included |
| `FixedQueue.Queue.MoveAssign` | include/hpc/core/queue.hpp:116-129 | Takes over the contents; from itself it changes nothing |
| `FixedQueue.Queue.MoveElements` | include/hpc/core/queue.hpp:92-96 | The elements arrive in order, one construction on a raw slot each, and rhs holds only husks |
| `FixedQueue.Queue.Swap` | include/hpc/core/queue.hpp:253-259 | Three moves exchange the contents, also when both are the same queue |
| `FixedQueue.Equal` | include/hpc/core/queue.hpp:263-273 | True exactly for equal contents, whatever the heads |
| `Vector.Vec.ShiftRight` | include/hpc/core/vector.hpp:409-422 | In place, for any gap size and overlap: every element n slots up, every construction on a raw slot, the vacated slots raw |
| `Vector.Vec.ShiftLeft` | include/hpc/core/vector.hpp:425-437 | In place, for any gap size and overlap: every element n slots down, the vacated slots raw |
| `Vector.Vec.Relocate` | include/hpc/core/vector.hpp:378-388 | Both paths leave the elements in order in the new buffer and nothing to destroy in the old one |
| `Vector.Vec.Reallocate` | include/hpc/core/vector.hpp:378-392 | For every capacity: bad_alloc exactly if its bytes modulo 2^64 are more than the heap grants; done exactly if the bytes are below 2^64 and granted, with the contents in a buffer of that capacity and one relocation counted for each element; nothing changed otherwise |
| `Vector.Vec.EnsureSpace` | include/hpc/core/vector.hpp:361-367 | The doubling is done modulo 2^64. With room nothing happens. Otherwise the call spins exactly if no iterate reaches the need, and returns with room exactly if the first that does is granted in full; it changes nothing if it does not return |
| `Vector.GrowsIff` | include/hpc/core/vector.hpp:331-367 | From no buffer or a power of two: the loop spins exactly for needs above 2^63, and growing works out exactly if the need is at most that and the capacity landed on has a size in bytes below 2^64 that the heap grants |
| `Growth.DoublingEndsIff` | include/hpc/core/vector.hpp:364-365 | From capacity 0 or any power of two, the wrapping doubling loop ends exactly if the need is at most 2^63 |
| `Growth.ResizeSpins` | include/hpc/core/vector.hpp:364-365 | The input at which it does not: an empty vector and a need of 2^63 + 1; no iterate ever reaches it |
| `Growth.Grow` | include/hpc/core/vector.hpp:364-365 | The loop itself: it ends exactly if some wrapped iterate reaches the need, for every capacity, and then with the first that does |
| `Growth.Lands` | include/hpc/core/vector.hpp:364-365 | A loop that ends at all ends within 64 rounds |
| `Growth.LandingIsFirst` | include/hpc/core/vector.hpp:364-365 | Where it ends is the first iterate that reaches the need, and the k-th iterate is the first value times 2^k, modulo 2^64 |
| `Growth.LandingFits` | include/hpc/core/vector.hpp:364-365 | Where it ends there is room, and past the first value less than twice what was needed |
| `Growth.FullDoubles` | include/hpc/core/vector.hpp:364-365 | A full power-of-two buffer asked for one more grows by exactly doubling, or not at all |
| `Vector.Vec.Reserve` | include/hpc/core/vector.hpp:166 | For every n a size_t can hold, contents unchanged; over a heap that grants the request the capacity becomes the larger of the two exactly if it was enough before or n elements take fewer than 2^64 bytes |
| `Vector.ReserveShort` | include/hpc/core/vector.hpp:331-340 | An input at which it goes wrong: 2^61 elements of 8 bytes are granted 0 bytes, whatever the heap |
| `Vector.ResizeShort` | include/hpc/core/vector.hpp:361-367 | An empty vector of such elements asked to resize to 2^60 + 1 doubles up to 2^61, and so does that |
| `Vector.Vec.ShrinkToFit` | include/hpc/core/vector.hpp:168-172 | Contents unchanged, capacity equal to the size |
| `Vector.Vec.PushBack` | include/hpc/core/vector.hpp:182-192 | Appends, in the same buffer exactly while there is room and otherwise where the doubling lands, or fails exactly as growing for one more does, with nothing changed; keeps the amortisation bound |
| `Vector.Vec.PopBack` | include/hpc/core/vector.hpp:194-199 | Drops the last element and destroys it; keeps the amortisation bound |
| `Vector.Vec.Insert` | include/hpc/core/vector.hpp:204-214 | Contents are s[..k] + [v] + s[k..], with or without reallocation; if growing does not return normally, nothing has changed |
| `Vector.Vec.OpenGap` | include/hpc/core/vector.hpp:395-405 | The shift and the construction in the gap make the inserted sequence |
| `Vector.Vec.Erase` | include/hpc/core/vector.hpp:216-223 | Contents are s[..k] + s[k + 1..] |
| `Vector.Vec.EraseRange` | include/hpc/core/vector.hpp:225-236 | Contents are s[..i] + s[j..] for every range, empty ones included |
| `Vector.Vec.DestroyN` | include/hpc/core/vector.hpp:352-359 | Exactly the given slots are destroyed, or none for a trivial type |
| `Vector.Vec.Clear` | include/hpc/core/vector.hpp:176-180 | Empty, capacity kept, every element destroyed |
| `Vector.Vec.Resize` | include/hpc/core/vector.hpp:238-260 | For every count a size_t can hold: a prefix, or the contents followed by copies of the value, or exactly the failure that growing to count has, with nothing changed |
| `Vector.SlideRoom` | include/hpc/core/vector.hpp:416-420 | Each step of a right shift finds its target raw and its source live, however the ranges overlap |
| `Vector.Client` | include/hpc/core/vector.hpp:162-260 | Any run of the modifiers, with any size_t arguments, any element size and any heap, agrees with the plain sequence up to the first call that does not return normally, and says exactly which and how; with only push_back and pop_back at most two relocations are made for each push |
| `Vector.EditMeans` | include/hpc/core/vector.hpp:162-260 | The plain sequence: what push, pop, resize and clear add or take off, position by position |
| `Vector.InsertMeans` | include/hpc/core/vector.hpp:204-214 | An inserted element is at its position, and without it the sequence is the old one |
| `Vector.EraseMeans` | include/hpc/core/vector.hpp:225-236 | Put back in its place, the erased range makes the old sequence |
| `Vector.EndingMeans` | include/hpc/core/vector.hpp:331-367 | How an operation ends: it spins exactly if the wrapping doubling never reaches the need, throws exactly if the bytes landed on, modulo 2^64, are more than the heap grants, and is done exactly if they do not wrap and are granted |
| `ShmProtocol.SpscFifo` | include/hpc/ipc/shm_ring_buffer.hpp:83-109 | In every interleaving of the two sides' loads and stores: the popped values are a prefix of the pushed ones, at most capacity - 1 are in flight, and the producer never writes the slot the consumer is about to read |
| `ShmProtocol.StepOk` | include/hpc/ipc/shm_ring_buffer.hpp:83-109 | Every load or store of either side keeps the invariant, each acting on a stale copy of the other's index |
| `ShmProtocol.PushUnderInterference` | include/hpc/ipc/shm_ring_buffer.hpp:83-95 | A whole push, with any steps of the consumer before the load of head, before the full test and before the store of tail: it is refused, with nothing changed, exactly if capacity - 1 messages are in flight when head is loaded, and otherwise appends its message and nothing else |
| `ShmProtocol.PopUnderInterference` | include/hpc/ipc/shm_ring_buffer.hpp:97-109 | A whole pop, with any steps of the producer in between: it is refused, with nothing changed, exactly if nothing is in flight when tail is loaded, and otherwise hands out the oldest message and removes just that one |
| `ShmProtocol.PushDecides` | include/hpc/ipc/shm_ring_buffer.hpp:89-92 | What the full test on a head that may be stale leads to: the message is written exactly if fewer than capacity - 1 were in flight when that head was loaded, and otherwise the call ends with nothing else changed |
| `ShmProtocol.PopDecides` | include/hpc/ipc/shm_ring_buffer.hpp:103-106 | What the empty test on a tail that may be stale leads to: the oldest message is read exactly if there was one when that tail was loaded, and otherwise the call ends with nothing else changed |
| `ShmProtocol.ExecAppend` | include/hpc/ipc/shm_ring_buffer.hpp:83-109 | Running one schedule after another is running their concatenation |
| `ShmProtocol.ExecOne` | include/hpc/ipc/shm_ring_buffer.hpp:83-109 | A run of one turn is that step, and an empty run changes nothing |
| `ShmProtocol.NotFullNow` | include/hpc/ipc/shm_ring_buffer.hpp:87-91 | The full test on a stale head answers for the head as it was loaded |
| `ShmProtocol.NotEmptyNow` | include/hpc/ipc/shm_ring_buffer.hpp:101-105 | The empty test on a stale tail answers for the tail as it was loaded |
| `ShmProtocol.WriteApart` | include/hpc/ipc/shm_ring_buffer.hpp:92 | The slot being written belongs to no element in flight |
| `ShmProtocol.ReadOk` | include/hpc/ipc/shm_ring_buffer.hpp:106 | The slot being read holds the oldest element in flight |
| `ShmProtocol.AnswersExact` | include/hpc/ipc/shm_ring_buffer.hpp:89-105 | The full or empty test, made on the other side's index as just loaded, is exact at the moment of that load |
| `ShmRing.Ring.constructor` | include/hpc/ipc/shm_ring_buffer.hpp:66-81 | For every capacity of at least 1 and message size: as many slots as fit into the mapping, whose size in bytes may wrap, and the fields are the protocol's initial state exactly if header and slots together take fewer than 2^64 bytes |
| `ShmRing.RoomIff` | include/hpc/ipc/shm_ring_buffer.hpp:68 | The mapping has room for all slots exactly if the unwrapped size is below 2^64 |
| `ShmRing.RegionShort` | include/hpc/ipc/shm_ring_buffer.hpp:68 | An input at which it has not: with a capacity of 2^61 and messages of 8 bytes only the header is mapped |
| `ShmRing.Ring.TryPush` | include/hpc/ipc/shm_ring_buffer.hpp:84-95 | Run alone it is the producer's steps in sequence; true exactly below capacity - 1 elements |
| `ShmRing.Ring.TryPop` | include/hpc/ipc/shm_ring_buffer.hpp:98-109 | Run alone it is the consumer's steps in sequence; true exactly when there is an element, and hands out the oldest |
| `ShmRing.SoloPushMeans` | include/hpc/ipc/shm_ring_buffer.hpp:84-95 | The producer's four steps without interference append, or do nothing when capacity - 1 elements are queued |
| `ShmRing.SoloPopMeans` | include/hpc/ipc/shm_ring_buffer.hpp:98-109 | The consumer's four steps without interference remove the oldest element, or do nothing |
| `ShmRing.Round` | examples/shm_publisher.cpp:52-59 | One message published by dropping the oldest when full: what is left is the end of the old contents with the message behind them, as much as fits, so with a capacity of at least 2 the message is the last element; the push after a drop is never refused |
| `ShmRing.Publish` | examples/shm_publisher.cpp:45-59 | After any number of rounds with no reader, from any contents: the end of the old contents followed by the messages, capacity - 1 of them or all if there are fewer |
| `ShmRing.PublishFresh` | examples/shm_publisher.cpp:42-59 | From the created ring: exactly the last min(n, capacity - 1) of n messages, in publish order |
| `PoolAllocator.PointerRoundTrip` | src/pool_allocator.cpp:23 | A link written into a block's bytes reads back as the same address |
| `PoolAllocator.BlocksApart` | src/pool_allocator.cpp:22 | Different blocks do not overlap and lie inside the storage |
| `PoolAllocator.FixedPool.ObjectsApart` | src/pool_allocator.cpp:18-22 | Objects no larger than a block, placed at the addresses of different blocks, do not overlap and lie inside the storage |
| `PoolAllocator.FixedPool.constructor` | src/pool_allocator.cpp:8-26 | For every element size and count: a block is the size asked for or 8 bytes, whichever is larger; all blocks are threaded onto the list, the last one first, none is outstanding, and objects of the caller's size in different blocks are disjoint and inside the storage obtained, exactly if the blocks' size in bytes is below 2^64; otherwise the storage is that size modulo 2^64 |
| `PoolAllocator.PoolShort` | src/pool_allocator.cpp:18 | An input at which it is not: 8 blocks of 2^61 bytes are given 0 bytes |
| `PoolAllocator.FixedPool.Allocate` | src/pool_allocator.cpp:33-41 | Null exactly when no block is free; otherwise the first free block, which becomes outstanding |
| `PoolAllocator.FixedPool.Deallocate` | src/pool_allocator.cpp:43-49 | An outstanding block becomes the first free one, writing only its own link; null is ignored |
| `PoolAllocator.FixedPool.ClientWrite` | src/pool_allocator.cpp:33-49 | Any byte written anywhere in an outstanding block leaves the free list as it is |
| `PoolAllocator.FixedPool.ChainFrame` | src/pool_allocator.cpp:46-48 | Writes confined to a block outside the list leave every link of the list in place |
| `PoolAllocator.FixedPool.Partition` | src/pool_allocator.cpp:33-49 | Free and outstanding blocks partition all blocks; the free list is empty exactly when every block is outstanding |
| `ArenaAllocator.AlignPtrIsLeast` | src/arena_allocator.cpp:10-15 | For every power-of-two alignment and every address the mask trick gives the least multiple at or above it exactly if that is below 2^64, and null otherwise |
| `ArenaAllocator.NextAlignedIsLeast` | src/arena_allocator.cpp:13 | Rounding x + d - 1 down gives the least multiple of d from x on |
| `ArenaAllocator.Arena.constructor` | src/arena_allocator.cpp:19-26 | An empty arena over the buffer, or one without memory |
| `ArenaAllocator.Arena.FromBuffer` | src/arena_allocator.cpp:28-35 | An empty arena over the caller's buffer, a null one included |
| `ArenaAllocator.Arena.Allocate` | src/arena_allocator.cpp:76-85 | For every size and power-of-two alignment: an aligned block inside the buffer and disjoint from all blocks since the last reset if there is room, and otherwise null with nothing changed, exactly unless the pointer sum wraps past 2^64 to at most the end; then what it returns and stores is stated |
| `ArenaAllocator.HugeRequestMisleads` | src/arena_allocator.cpp:79-84 | A request at which it goes wrong: 2^64 - 1 bytes with alignment 1 succeeds and moves the pointer back by one |
| `ArenaAllocator.Arena.Reset` | src/arena_allocator.cpp:87-90 | All blocks given back, the whole buffer available |
| `ArenaAllocator.Arena.MoveAssign` | src/arena_allocator.cpp:50-67 | Releases its own buffer exactly if it owns one and the other is a different arena, takes over the other's buffer and blocks and leaves it without memory |
| `DequeIterator.FloorDivision` | include/hpc/core/deque.hpp:109-111 | The two-case division with a truncating / is floor division, for every signed offset |
| `DequeIterator.PlusExact` | include/hpc/core/deque.hpp:103-116 | += n lands on the position n further on, for every signed n that stays in range |
| `DequeIterator.PlusIsWalk` | include/hpc/core/deque.hpp:89-116 | += n equals n repetitions of ++, or -n of -- |
| `DequeIterator.NextPrevExact` | include/hpc/core/deque.hpp:89-100 | ++ and -- move by one logical position and undo each other |
| `DequeIterator.MinusIsDistance` | include/hpc/core/deque.hpp:126-132 | Subtraction is the signed distance of the logical positions |
| `DequeIterator.PlusMinus` | include/hpc/core/deque.hpp:103-132 | (i + n) - i is n |
| `DequeIterator.LessIsOrder` | include/hpc/core/deque.hpp:136-138 | < orders iterators by logical position |
| `DequeLayout.LaidAt` | include/hpc/core/deque.hpp:119-121 | Element i is in slot (a + i) % ce of chunk (a + i) / ce |
| `DequeLayout.LaidBackPushed` | include/hpc/core/deque.hpp:285-295 | Which slot a push_back may construct in, and that the chunks then hold the longer sequence, in the same chunk or with a new one |
| `DequeLayout.LaidFrontPushed` | include/hpc/core/deque.hpp:330-338 | The same for push_front |
| `DequeLayout.LaidBackPopped` | include/hpc/core/deque.hpp:297-305 | Which slot pop_back destroys, that a chunk it drops is empty, and what the chunks then hold |
| `DequeLayout.LaidFrontPopped` | include/hpc/core/deque.hpp:340-348 | The same for pop_front |
| `DequeLayout.LaidChunk` | include/hpc/core/deque.hpp:352-369 | Exactly the offsets between the cursors hold elements, chunk by chunk |
| `Deque.Deque.constructor` | include/hpc/core/deque.hpp:151 | Empty and valid for every chunk size of at least 1 |
| `Deque.Deque.Filled` | include/hpc/core/deque.hpp:159-163 | count copies of the value, each slot constructed once, exactly if count is below 2^61 - 3 times the chunk size; so for every chunk size if it is below 2^61 - 3, and always from nine elements to a chunk on |
| `Deque.MapFitsIff` | include/hpc/core/deque.hpp:468-473 | The map of that many chunks, two pointers more than chunks, takes fewer than 2^64 bytes exactly for those counts |
| `Deque.MapShort` | include/hpc/core/deque.hpp:437-440 | An input at which they are not: 2^61 - 3 elements in chunks of one are given a map of 0 bytes |
| `Deque.Deque.CopyOf` | include/hpc/core/deque.hpp:179-183 | Equal contents, wherever rhs's first element sits in its chunk |
| `Deque.Deque.CopyEach` | include/hpc/core/deque.hpp:507-513 | Two iterators out of phase construct the elements in order, each in a raw slot |
| `Deque.Equal` | include/hpc/core/deque.hpp:399-406 | True exactly for equal contents, whatever the offsets inside the chunks |
| `Deque.Deque.InitMap` | include/hpc/core/deque.hpp:468-487 | A window of distinct fresh chunks, all raw, in the middle of a map of the stated size, with the cursors exactly n slots apart and finish_ strictly inside its chunk |
| `Deque.Deque.ValueFill` | include/hpc/core/deque.hpp:498-505 | Exactly the slots between the cursors are constructed, each while raw |
| `Deque.Deque.CopyDown` | include/hpc/core/deque.hpp:621-622 | Overlapping copy towards lower entries keeps every entry |
| `Deque.Deque.CopyUp` | include/hpc/core/deque.hpp:624-625 | Overlapping copy towards higher entries keeps every entry |
| `Deque.Deque.CentredMoves` | include/hpc/core/deque.hpp:617-625 | In a map more than twice as large as needed, a window full at the front always shifts up and one full at the back down |
| `Deque.Deque.CentralIff` | include/hpc/core/deque.hpp:612-616 | Centred means k free entries before the window and k or k + 1 after it, apart from the requested ones |
| `Deque.Deque.Recentre` | include/hpc/core/deque.hpp:617-625 | The in-place shift keeps the chunk pointers in order and leaves the window in the middle apart from the requested free entries |
| `Deque.Deque.GrowMap` | include/hpc/core/deque.hpp:626-636 | The larger map, of the stated size, holds the chunk pointers in order, in the middle apart from the requested free entries |
| `Deque.Deque.ReallocateMap` | include/hpc/core/deque.hpp:611-639 | Which branch is taken, and after either: same chunks in the same order, cursors on the same slots, free entries at the requested end and the rest centred; a new map is at least twice as large |
| `Deque.Deque.ReserveMapAtBack` | include/hpc/core/deque.hpp:598-603 | A free entry after the window; the map and the window stay where they are if there was one |
| `Deque.Deque.ReserveMapAtFront` | include/hpc/core/deque.hpp:605-609 | A free entry before the window; the map and the window stay where they are if there was one |
| `Deque.Deque.PushBackAux` | include/hpc/core/deque.hpp:547-557 | The last slot of the chunk is constructed and one fresh raw chunk follows; no other slot changes |
| `Deque.Deque.PushFrontAux` | include/hpc/core/deque.hpp:569-578 | One fresh chunk in front whose last slot is constructed; no other slot changes |
| `Deque.Deque.EmplaceBack` | include/hpc/core/deque.hpp:285-295 | Appends; the reference is the new element's chunk and offset, and every other element keeps its own |
| `Deque.Deque.EmplaceFront` | include/hpc/core/deque.hpp:330-338 | Prepends; the reference is the new element's chunk and offset, and every other element keeps its own |
| `Deque.Deque.PopBack` | include/hpc/core/deque.hpp:297-305 | Drops the last element and its address; every other element keeps its own |
| `Deque.Deque.PopFront` | include/hpc/core/deque.hpp:340-348 | Drops the first element and its address; every other element keeps its own |
| `Deque.Deque.Size` | include/hpc/core/deque.hpp:222-225 | The number of elements, from iterator subtraction |
| `Deque.Deque.Empty` | include/hpc/core/deque.hpp:221 | Equal cursors exactly when there are no elements |
| `Deque.Deque.At` | include/hpc/core/deque.hpp:229-230 | Element i, by iterator arithmetic through the map |
| `Deque.Deque.CheckedAt` | include/hpc/core/deque.hpp:232-236 | Element i, or the error exactly past the end |
| `Deque.Deque.Front` | include/hpc/core/deque.hpp:243 | The first element |
| `Deque.Deque.Back` | include/hpc/core/deque.hpp:245 | The last element, one iterator step back from finish_ |
| `Deque.Deque.AddressHolds` | include/hpc/core/deque.hpp:25-26 | Every element's address is a live slot of an allocated chunk that holds it |
| `Deque.Deque.AddressesDiffer` | include/hpc/core/deque.hpp:25-26 | No two elements share a slot |
| `Deque.Deque.Clear` | include/hpc/core/deque.hpp:352-369 | Every element destroyed once, every chunk but the first freed once, and the deque starts over there |
| `Deque.Deque.Teardown` | include/hpc/core/deque.hpp:517-533 | Every element destroyed once and every chunk and map array freed once; none is left, and no chunk held an object that still needed its destructor when it was freed |
| `Deque.Deque.Resize` | include/hpc/core/deque.hpp:371-389 | A prefix, or the contents followed by copies; elements that stay keep their addresses |
| `DequeRuns.Do` | include/hpc/core/deque.hpp:265-389 | Every operation makes the same edit to the list of values and to the list of addresses |
| `DequeRuns.EditMeans` | include/hpc/core/deque.hpp:265-389 | What the edit is, for values and addresses alike: an entry added or taken off at its end, or a prefix kept, the others in order |
| `DequeRuns.AddedMeans` | include/hpc/core/deque.hpp:265-389 | What is added: the value pushed, or as many copies as are missing |
| `DequeRuns.Run` | include/hpc/core/deque.hpp:18-26 | Over any run of pushes and pops at both ends, resize and clear, for every chunk size: the contents are the plain sequence and the addresses undergo exactly the edits of the values, so no element ever relocates; the account of allocated chunks and maps only grows |
| `DequeRuns.Lifetime` | include/hpc/core/deque.hpp:193 | Construct, run anything, destroy: every chunk ever allocated, not only those of the last window, has been freed, and held nothing undestroyed when it was; so has every map array |

## Left out

- MPMC memory model: atomics are sequentially consistent steps; acquire, release and relaxed orderings are not modelled.
- MPMC spurious failures: a weak compare-and-swap that fails although the value matches is not modelled; it would only add retries.
- MPMC index width: positions are unbounded naturals, which the signed difference equals below 2^63; wrap-around after 2^63 claims is not modelled.
- MPMC observers `empty`, `full` and `approximate_size`, documented as approximate, the batch functions, which loop over single operations, and the destructor, which assumes a drained queue.
- Deque.Deque: move, swap and assignment exchange the map pointer and the cursors and are not modelled; neither are reverse iterators and the constructors from a range or list.
- Deque.Deque: chunk and map allocations are granted; an exception from them is not modelled. A map that grows by pushes cannot wrap its size in bytes, because the chunks it points to would not fit into the address space.
- DynamicQueue.Queue: move, assignment and swap exchange buffer pointers and are not modelled; neither is the constructor from a list.
- DynamicQueue.Queue.GrowTo: does not model what happens after a short buffer is taken for a full one, or elements are relocated past its end, which C++ does not define.
- Vector.Vec.Reallocate: the same.
- MpmcRing.Ring.constructor: does not model the numbering of cells past the end of a short array; allocation failure is not modelled.
- ShmRing.Ring.constructor: a failing `ftruncate` or `mmap` is not modelled, nor accesses past a short mapping.
- Vector.Vec: `assign`, `swap`, the copy constructor and the comparisons are not modelled; they are loops over contiguous elements that the shifts and `reallocate` already contain, or exchange three fields.
- PoolAllocator.FixedPool.constructor: allocation failure is not modelled, nor what threading the blocks does when the storage is too short.
- ShmProtocol: an index or slot access is one step; torn reads of a message by another process are not modelled.
- `include/hpc/core/ring_buffer.hpp`: its `distance` does not use the ring's mask, so its full test can miss once tail is numerically below head; the single-producer single-consumer property is proved on the shared-memory ring instead.
- `include/hpc/core/ttas_spinlock.hpp` and `include/hpc/core/stack.hpp`: neither is used by the modelled containers; the lock is a single flag, and the stack pushes and pops at one end of an array.
- `shm_region`, huge pages, NUMA, pinning and clocks: operating-system calls; the huge-page rounding is the arena's alignment lemma again.
- The allocator wrappers `arena_allocator<T>`, `pool_allocator<T>`, `numa_arena` and `numa_pool`: delegation only.
- Value categories, exceptions thrown by element types, over-aligned allocation, cache-line padding.
