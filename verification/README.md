# Kraken green-thread runtime — Dafny model

Kraken is a cooperative, single-core thread runtime contained in one C header,
`kraken.h`. This project models its scheduling and lifecycle state machine as
pure functions over an immutable runtime value:

- `Threads`: the records. `Status` is `kraken_status`. `Context` is the x86-64
  `kraken_context`. `Thread` is `kraken_thread`, with `stack` set to `None` for
  a NULL pointer. `Runtime` is `kraken_runtime`, with `current` as an index.
- `Bootstrap`: the trampoline stack that `kraken_start_thread` builds. A stack
  block is its base address plus a sequence of words, indexed by byte offset
  divided by the word size. `Pop` models `ret`. The layout is generic over the
  word size, so it covers both the x86-64 branch (offsets 8 and 16) and the
  x86 branch (offsets 4 and 8).
- `Scheduler`: the round-robin scan inside `kraken_yield`. `Scan` is
  characterised against an independent definition: "the first READY slot
  strictly after the current one, in cyclic order" (`IsFirstReadyAfter`).
- `Kraken`: the lifecycle operations.
  - `Initialize` models `kraken_initialize_runtime`.
  - `Yield` models `kraken_yield`.
  - `FirstStopped` and `StartThread` model `kraken_start_thread`.
  - `Guard` models `kraken_guard`.
  - `Run` and `DrainStep` model `kraken_run`. `FreeOrder` and `Released` model
    its release loop.
  - The module also defines the invariants `AtMostOneRunning`, `Coherent` and
    `Inv`, which every operation keeps.
- `Fairness`: round-robin order when every other thread is READY.
- `Ledger`: ownership of stack blocks between malloc and free. It is used to
  show the stack leak on slot reuse (see Findings).
- `Scenarios`: concrete runs. They cover `kraken_test.c`'s three starts on a
  table of four, `kraken_run(7)` with no threads, and a slot reuse that leaks a
  stack.

Only the `KRAKEN_SCHEDULER_ROUND_ROBIN` build is modelled, because the header
has a scheduler only in that configuration. The runtime model uses the x86-64
branch. The table capacity is `|threads|`, from 1 to 65535. The upper bound
exists because the `uint16_t` counters in `kraken_initialize_runtime` and
`kraken_run` would never reach a capacity of 65536. The model's
`1 <= capacity` bound is needed because C has no zero-length table.

Outside effects are parameters or outcomes:

- **malloc.** Its result is an `Option<Block>` input. `None` stands for NULL.
  A returned block is required to be `ValidBlock`: `StackSize` bytes that fit
  in the address space.
- **kraken_switch.** The switch is opaque. `Yield` takes `live`, the register
  snapshot the switch saves into the outgoing slot. It returns `restored`, the
  context the switch loads.
- **free and exit.** `Run` ends in `Exited(code, freed)`. `freed` lists the
  blocks passed to `free()`, in the order they are freed.
- **Resumption.** The source's `kraken_yield` returns true only later, when
  control comes back on another stack. The model uses `Switched` for that.
  `DrainStep` is the turn of `kraken_run`'s loop that runs each time control
  comes back to it.
- **NoSwitch.** A `NoSwitch` outcome carries no runtime, because the source
  changes nothing before returning false. The caller keeps the runtime it
  passed in.

In these places the code behaves differently from what its names and
comments suggest. The model follows the code:

- `kraken_start_thread` returns 0 on success, never the slot it filled
  (kraken.h:393).
- `kraken_guard` does nothing at all when slot 0 is current. On another slot
  it stops the current thread, calls `kraken_yield` once and ignores the
  result (kraken.h:291-295).
- `kraken_initialize_runtime` does not check the boot stack's malloc. A NULL
  boot stack is carried as `None` (kraken.h:228).
- Reusing a STOPPED slot overwrites its stack without freeing it
  (kraken.h:370). A failed allocation also overwrites it with NULL.
  `StartThread` keeps both effects.
- The x86-64 switch does not load the runtime pointer into the thread
  function's parameter register. The comment at kraken.h:266-267 announces
  this, but no instruction follows it. The model's switch only saves and
  restores contexts.

The model departs from the code in two places. First, `Kraken.Yield` uses the
wrap the loop's comments intend rather than the out-of-range read (see
Findings). Second, `Kraken.Guard` acts on the runtime the thread was started
on. The source's guard instead receives whatever the entry function left in
the parameter register. Both are listed under "Left out".

`Inv` also shows that ignoring the guard's yield result is harmless. While
another slot has control, slot 0 is READY. So the guard's yield always finds a
slot, and `Guard` always switches away (see `Kraken.Guard` and `Kraken.Yield`).

## Model

| member | source | states |
|---|---|---|
| `Bootstrap.Trampoline` | kraken.h:376-388 | The guard address is written to the top word (offset StackSize - w). The entry address is written to the word below it (offset StackSize - 2w). Every lower word is unchanged, and the base address is unchanged. The saved stack pointer addresses the entry word. The first `ret` yields the entry address, the second yields the guard address, and a third `ret` would read past the block. |
| `Scheduler.Walk` | kraken.h:311-326 | Starting from scan position p, the result is the first READY slot in cyclic order from p, with none before it. If there is none before the scan comes back to the current slot, the result is None. |
| `Scheduler.Scan` | kraken.h:309-326 | If the current slot is READY, it is chosen. Otherwise the result is None exactly when no other slot is READY. A result of Some(j) holds exactly when j is the first READY slot strictly after the current one in cyclic order. A chosen slot is always READY, so a STOPPED slot is never selected. |
| `Scheduler.ScanAsWritten` | kraken.h:311-321 | This is the scan with the out-of-range read of `threads[KRAKEN_MAX_THREADS]`. It chooses that phantom slot exactly when the phantom reads READY and no real slot after the current one is READY. Whenever the phantom is not chosen, including when it reads READY but a real slot wins, the result equals `Scan`. |
| `Scheduler.NonPhantomAgrees` | kraken.h:311-326 | Whenever the scan that reads past the table does not stop on the phantom slot, it chooses the same slot as the scan over the table alone. |
| `Scheduler.PhantomChoice` | kraken.h:314-321 | The phantom position one past the table is chosen exactly when it reads READY, the current slot is not READY, and no slot after the current one is READY. |
| `Scheduler.PastEndHarmless` | kraken.h:314-321 | If the word read past the table is not READY, the scan that includes it chooses the same slot as the scan over the table alone. |
| `Scheduler.PhantomSlotChosen` | kraken.h:311-321 | Take four slots with slot 2 current and slot 0 READY. When the read past the table yields READY, the scan as written picks slot 4. The modulo scan picks slot 0. |
| `Kraken.Initialize` | kraken.h:220-235 | Slot 0 is current and RUNNING and holds the boot block. Every other slot is STOPPED with a NULL stack. Every context is zero, and every id equals its index. `Inv` holds afterwards. |
| `Kraken.Yield` | kraken.h:299-350 | The result is false exactly when the current slot is not READY and no other slot is READY. A READY current slot is chosen again. Otherwise the chosen slot was READY before and becomes RUNNING and current. Nothing else in it changes, unless it is the current slot, which also receives the saved registers. If the current slot was not READY, a slot is chosen exactly when it is the first READY slot after the current one. The outgoing slot becomes READY unless it was STOPPED, and it receives the saved registers. The restored context is the chosen slot's. All other slots are unchanged, and no stack or id changes. `AtMostOneRunning` is preserved, `Coherent` leads to `Inv`, and from a non-boot slot a switch always happens. |
| `Kraken.FirstStopped` | kraken.h:361-368 | The result is the lowest STOPPED slot at or after k, or None if no slot from k on is STOPPED. |
| `Kraken.StartThread` | kraken.h:353-394 | The return code is 0 or -1, and the current slot and table size are unchanged. With no STOPPED slot the result is -1 and nothing changes. If malloc fails, the result is -1 and only the first STOPPED slot changes: its stack becomes NULL and its status stays STOPPED. If malloc succeeds, the result is 0 and the first STOPPED slot becomes READY with a stack bootstrapped on the new block. The guard and entry addresses sit in its top two words, and every lower word is as malloc returned it. Its rsp addresses the entry word, and its other registers and its id are kept. No other slot changes. `Inv` is preserved. |
| `Kraken.StopCurrent` | kraken.h:202-203 | Only the current slot's status changes, to STOPPED. For a non-boot current slot, `Coherent` is preserved. |
| `Kraken.Guard` | kraken.h:284-296 | On slot 0 the guard returns with nothing changed. On another slot, the current thread is stopped and the guard yields. The guard returns only if no other slot is READY. Otherwise it switches to the first READY slot after the current one. That slot becomes RUNNING and its saved context is restored. The stopped slot keeps its saved registers, and every other slot, stack and id is unchanged. The switch is the one `Kraken.Yield` makes from the stopped state. Under `Coherent` it always switches, and it re-establishes `Inv`. |
| `Kraken.FreeOrder` | kraken.h:210-214 | The release loop frees slots in strictly increasing index order. Exactly the slots with a non-NULL stack are freed, so each non-NULL stack is freed once. |
| `Kraken.Released` | kraken.h:210-214 | The blocks passed to free() are the non-NULL stacks of the slots the release loop visits, one per slot, in the loop's order. |
| `Kraken.DrainStep` | kraken.h:207-216 | The loop exits exactly when a yield would return false. On exit, the code is the given one and the freed blocks are the table's non-NULL stacks in slot order. Otherwise control goes wherever `Yield` switches, and `Inv` holds there. |
| `Kraken.Run` | kraken.h:196-217 | The process exits exactly when no other slot is READY, with the given code, after freeing every non-NULL stack. A non-boot caller is left STOPPED, with its saved registers, and control moves to the first READY slot after it. That slot becomes RUNNING and its saved context is restored. Every other slot is unchanged. Under `Coherent`, a non-boot caller always switches away, and the next state satisfies `Inv`. The function never returns to its caller. |
| `Fairness.AllReadyRotates` | kraken.h:309-338 | When every other slot is READY, one yield moves control to the next slot by index, wrapping to 0. Every other slot stays READY, and `Inv` still holds. |
| `Fairness.Visits` | kraken.h:309-338 | With every other slot READY, the k-th of m successive yields (m up to the table size) hands control to slot current + k + 1, taken modulo the table size. |
| `Fairness.RoundRobinVisitsEverySlotOnce` | kraken.h:309-338 | With every other slot READY, as many yields as there are slots visit every slot exactly once. The last slot visited is the one that started. |
| `Ledger.HeldReplace` | kraken.h:370 | When one slot is replaced, the multiset of held stack blocks swaps that slot's old block for the new slot's block. |
| `Ledger.ReleaseFreesHeld` | kraken.h:210-214 | The base addresses freed by the release loop equal the multiset of blocks the table holds. |
| `Ledger.InitializeBalanced` | kraken.h:222-228 | After initialisation, the boot block is the only block issued, and slot 0 holds it. |
| `Ledger.YieldBalanced` | kraken.h:328-338 | A yield does not move a block between slots. |
| `Ledger.GuardBalanced` | kraken.h:291-295 | A guard, whether it returns or switches, does not move a block between slots. |
| `Ledger.StartThreadSwapsBlock` | kraken.h:370-391 | A start that finds a STOPPED slot replaces that slot's old block with the block malloc returned, or with none. |
| `Ledger.StartThreadLeaksReusedStack` | kraken.h:370 | As written, when the reused slot still holds an older stack, that block stays issued but is neither held nor freed, so the bookkeeping no longer balances. |
| `Ledger.StartThreadReleasing` | kraken.h:353-394 | This start has the source's runtime result and return code, plus a free of the reused slot's old block. It keeps every issued block held or freed. |
| `Ledger.RunExitFreesEverything` | kraken.h:207-216 | If the bookkeeping is balanced and `kraken_run` exits, everything ever issued has been freed exactly once. |
| `Scenarios.ThreeStartsFillTable` | kraken_test.c:45-54 | With a table of four (kraken_test.c:2), the three starts after initialisation all return 0. Slots 1-3 become READY while slot 0 stays RUNNING. A fourth start returns -1 and changes nothing. |
| `Scenarios.FullTableRefuses` | kraken.h:362-365 | When no slot is STOPPED, a start returns -1 and leaves the runtime unchanged, whatever malloc would return. |
| `Scenarios.StartFillsFirstStopped` | kraken.h:362-391 | A successful start changes exactly one status, turning the first STOPPED slot READY, and returns 0. |
| `Scenarios.RunWithNoThreadsExits` | kraken.h:196-217 | With a table of two and no threads, `kraken_run(7)` exits with 7 after freeing only the boot stack. |
| `Scenarios.SlotReuseLeaksStack` | kraken.h:362-370 | Take this sequence: start, yield, the entry returns into the guard, then start again. The second start reuses slot 1 and loses the first thread's block. |

## Left out

- `kraken_switch` (kraken.h:244-281) is raw register save and restore in inline assembly. It is an opaque step: `live` in, `restored` out. The x86 branch's offsets 0x28 and 0x30 do not match its three-word struct, and that branch has no `ret`. This is not modelled.
- A thread's real resumption on its own stack is not modelled. `kraken_yield` returns true later, in another frame, and that is non-sequential control flow. Each yield is one transition, and `DrainStep` is the loop turn that runs when control returns to `kraken_run`.
- Thread bodies are application code and are not modelled. So the run of `kraken_test.c` is not modelled end to end: its threads t1-t3 each yield ten times and then return (kraken_test.c:8-42). Its parts are: `Yield`, the guard's stop-and-yield, and `Run`'s exit condition.
- Kraken.Yield: uses the corrected cyclic scan `Scheduler.Scan`, not the scan as written. When the out-of-range status of `threads[KRAKEN_MAX_THREADS]` reads READY, the source switches to that phantom slot, and the model never does. `Guard`, `Run`, `DrainStep` and the `Fairness` lemmas inherit this. `Scheduler.ScanAsWritten` models the written scan, and its contract shows the two agree whenever that read is not READY.
- Kraken.Guard: acts on the runtime the thread was started on. In the source, `kraken_guard` is entered by the entry function's `ret` into the address stored at kraken.h:377. The switch loads no runtime pointer, so the guard's `runtime` argument is whatever the entry function left in the parameter register. The model assumes that this is the real runtime.
- malloc, free, bzero and exit are abstracted. The allocation result is an input. The frees are the `freed` list and the `Ledger` bookkeeping. exit is the `Exited` outcome.
- The malloc of the runtime record itself is not modelled, because the source never checks it (kraken.h:222-224).
- Debug printing (`kraken_print_state` and `kraken_print_thread_state`, kraken.h:141-193) is diagnostic only and is not modelled.
- `check_current_thread_ptr` (kraken.h:238-241) and the NULL assertions are not modelled, because `current` is an index that is always in range.
- Preprocessor selection of architecture, stack size and scheduler (kraken.h:6-42) is fixed as follows: x86-64, 2 MiB stacks, round robin. The AVR branch is empty in the source. The FIFO and FAIR codes have no implementation.
- Machine words are unbounded naturals. Only a stack block's address range is bounded by the architecture. Entry and guard addresses are parameters.
- The demo and test programs (`kraken_test.c`, `kraken_demo.c`, `kraken_test_x86.c`) rely on macros that `kraken.h` does not define. They are used only for the capacity and start sequence in `Scenarios.ThreeStartsFillTable`.

## Findings

| source | as written | input that shows it | evidently intended | confidence | as-written member | corrected member |
|---|---|---|---|---|---|---|
| kraken.h:311-321 | The scan tests the pointer before incrementing it. After the last slot it reads `threads[KRAKEN_MAX_THREADS].status`, one past the table, and can stop there. | Four slots, slot 2 current, slot 0 READY, slot 3 not READY, and the word past the table holding 2 (READY). The scan stops at the phantom slot 4 and marks it RUNNING. | Wrap from the last slot straight to slot 0, which here chooses slot 0. | medium; not executed | `Scheduler.ScanAsWritten` (counterexample `Scheduler.PhantomSlotChosen`) | `Scheduler.Scan` (`Scheduler.PastEndHarmless` shows that the two agree whenever the extra read is not READY) |
| kraken.h:370 | A reused STOPPED slot's stack pointer is overwritten by the new malloc result, or by NULL, without a free() of the old block. | Start a thread in slot 1, yield to it, and let its entry function return into the guard. Then start another thread: slot 1 is reused and the first block is never freed. | Free the old block before allocating a new one, so that `kraken_run` gives back everything ever allocated. | medium; not executed | `Ledger.StartThreadLeaksReusedStack` (scenario `Scenarios.SlotReuseLeaksStack`) | `Ledger.StartThreadReleasing` (with `Ledger.RunExitFreesEverything`) |
