# UEDumper live memory and engine containers, modelled in Dafny

This project models two parts of the dumper.

The first is the **live-memory block cache** of `Engine/Live/LiveMemory.cpp`.
It keeps local copies ("blocks") of regions of the target process's memory in
`memoryBlocks`, a map from remote address to block. Each block has a game
address, a buffer of `size` bytes, a usage counter and the time of its last
update. Readers reach it through
`addNewBlock`, `getMemoryBlock`, `freeBlock` and `getBlockInfo`. A background
loop, started once by `cacheBlocks`, does the refreshing: each iteration re-reads
the blocks used since the last iteration and resets their counters.

The second is the set of **engine containers** in `Engine/structs.h`. `TArray`
is an array with a live `Count` and a capacity `Max`, and it removes elements
by moving the last one into the gap. `FString` is a wide string laid over
`TArray`. `TEnumAsByte` stores an enum in one byte. `FScriptInterface`/`TScriptInterface`
are object/interface handles with a null guard. `TPair` and
`TUniquePtr` are small accessor types.

Layout of the Dafny:

- `types.dfy`, module `Types`: `byte`, `uint64`, `int32`, `wchar` (a 16-bit `wchar_t` code unit), `Option`.
- `block_store.dfy`, module `BlockStore`: the cache as values. The block map is
  a `map<uint64, MemoryBlock>`. Each cache operation is a function from the old
  map to the new one, and the lemmas prove the cache's counting, refresh and
  key-set behaviour.
- `live_memory.dfy`, module `LiveMemory`: class `LiveMemory`, with the fields
  `memoryBlocks` and `done` and an imperative method per operation. The refresh
  pass is a `while` loop over the keys. Every map operation (`AddNewBlock`,
  `GetMemoryBlock`, `FreeBlock`, `GetBlockInfo`, the refresh pass and one loop
  cycle) is proved equal to its `BlockStore` function. The constructor and
  `CacheBlocks` have no such function: they only set up the empty map and the
  `done` flag.
- `decimal.dfy`, module `Decimal`: `std::to_string` for the usage counter in
  `getBlockInfo`, and its inverse.
- `structs.dfy`, module `Structs`: class `TArray` over an `array?<T>`, with
  `RemoveSingle` and the looping `RemoveAt`. These are proved against
  sequence functions on the live elements. The value types are datatypes with
  total functions.

External collaborators are parameters:

- `Memory::read` is a `ReadPrimitive`: for (address, size) it gives the `size`
  bytes the read leaves in the buffer. Each refresh cycle gets its own.
- The time the loop captures at the top of a cycle is the `time` parameter.
- The `HH:MM:SS` rendering of `getBlockInfo` is the `formatTime` parameter.

Points where the code behaves differently from what a reader might expect; the
model follows the code:

- Creating a block counts as one access (`usageCounter++` on the new block).
  So a block that is created and never read again is refreshed once by the
  next cycle: its buffer becomes what that read returned. It is not left
  all-zero for ever (`BlockStore.CreatedBlockRefreshedOnce`).
- The code ignores the result of `Memory::read` and resets the counter
  anyway. There is no failure path and no retry.
- Each iteration walks the map twice. After the first pass every counter is
  0, so the second pass changes nothing (`BlockStore.SecondPassChangesNothing`).
- Nothing is ever evicted, because the eviction test is commented out.
  `freeBlock` frees the buffer and keeps the entry. There is no combined
  release-and-erase, and no stop signal.
- `getBlockInfo` returns `""` for an unknown address. For
  a known one, the counter follows the time with no separator.

`LiveMemory.h` is not part of this model. The block that `getMemoryBlock`
returns for an unknown address (`return {};`) is taken to be all zero. The
header is also assumed to start `usageCounter` and `updateTimeStamp` at 0, since `addNewBlock`
stores the new block with one `usageCounter++`.

## Model

Functions that only compute a source function's value have no row of their own. The lemma or method rows citing the same lines state what they do: `Structs.RemoveSwap` and `Structs.RemoveAtSeq` (through `RemoveSwapAt`, `RemoveSwapMultiset` and `RemoveAtEffect`), `Structs.TArray.Num` and `Structs.TArray.IsValidIndex` (through `IsValidIndexChecked` and `IsValidIndexAcceptsNegative`), `Structs.IsValid` (through `FromWideStringValid`), `Structs.FromInt32`, `Structs.FromByte` and `Structs.GetValue` (through `EnumAsByteValue`), `Structs.GetInterface` and `Structs.IsBound` (through `InterfaceNullGuard`), and `BlockStore.MemoryLoopCycle` (through `SecondPassChangesNothing` and `LiveMemory.LiveMemory.MemoryLoopCycle`).

| member | source | states |
|---|---|---|
| `BlockStore.AddNewBlock` | UEDumper/Engine/Live/LiveMemory.cpp:55-74 | Known address, whatever size is passed: only its counter changes, by exactly one; size, buffer, time and address stay, and no key is added. New address: exactly one key is added, holding that address, the given size, counter 1 and `size` zero bytes. All other entries stay as they were. The returned block is the stored one. |
| `BlockStore.GetMemoryBlock` | UEDumper/Engine/Live/LiveMemory.cpp:97-107 | Unknown address: the map is unchanged and the default block is returned. Known address: the counter rises by one, everything else stays, and the block is returned as it is after the increment. The key set never changes. |
| `BlockStore.FreeBlock` | UEDumper/Engine/Live/LiveMemory.cpp:76-85 | Unknown address: no-op. Known address: the block is marked released, its other fields are kept, and the key set is unchanged, so the entry is not erased. |
| `BlockStore.BlockInfo` | UEDumper/Engine/Live/LiveMemory.cpp:109-122 | The text is empty if and only if the address is unknown. For a known address it starts with "updated at " and the formatted update time. The rest is a non-empty string of decimal digits that reads back as the usage counter. It is a function of the map, so no counter moves and no entry appears. |
| `BlockStore.RefreshPass` | UEDumper/Engine/Live/LiveMemory.cpp:11-35 | Same key set. A block with counter 0 keeps all its fields. A block with a positive counter ends with update time = `time`, the bytes read for (its key, its size), and counter 0; its size, address and released flag are kept. Afterwards every counter is 0. |
| `BlockStore.SecondPassChangesNothing` | UEDumper/Engine/Live/LiveMemory.cpp:36-46 | The second walk of an iteration finds every counter at 0, so the whole iteration equals one pass. |
| `BlockStore.Cycles` | UEDumper/Engine/Live/LiveMemory.cpp:22-27 | Any number of refresh cycles leave the key set unchanged, because no cycle adds or erases an entry. |
| `BlockStore.AddNewBlockKeepsWellFormed` | UEDumper/Engine/Live/LiveMemory.cpp:65-70 | `addNewBlock` keeps every entry filed under its own address, with exactly `size` bytes in its buffer. |
| `BlockStore.GetMemoryBlockKeepsWellFormed` | UEDumper/Engine/Live/LiveMemory.cpp:104-105 | `getMemoryBlock` keeps the map well formed. |
| `BlockStore.FreeBlockKeepsWellFormed` | UEDumper/Engine/Live/LiveMemory.cpp:78-81 | `freeBlock` keeps the map well formed. |
| `BlockStore.CycleKeepsWellFormed` | UEDumper/Engine/Live/LiveMemory.cpp:31-33 | A refresh re-reads exactly `size` bytes, so a cycle keeps the map well formed. |
| `BlockStore.GetRepeatedCounts` | UEDumper/Engine/Live/LiveMemory.cpp:101-106 | `k` calls of `getMemoryBlock` on a known address raise its counter by exactly `k`. No other field and no other entry changes. |
| `BlockStore.AddThenGetCounter` | UEDumper/Engine/Live/LiveMemory.cpp:59-72 | `addNewBlock` on a new address, then `k` calls of `getMemoryBlock` with no cycle between, leaves the counter at `k + 1`. |
| `BlockStore.IdleBlockUntouched` | UEDumper/Engine/Live/LiveMemory.cpp:15-19 | A block with counter 0 comes out of any sequence of cycles exactly as it went in: same buffer, same time. |
| `BlockStore.CreatedBlockRefreshedOnce` | UEDumper/Engine/Live/LiveMemory.cpp:65-72 | A block created and not read again holds, after any run of cycles, the bytes and the time of the first cycle's read, with counter 0. |
| `BlockStore.ReadAfterRefreshExample` | UEDumper/Engine/Live/LiveMemory.cpp:10-46 | Create 0x1000 with 8 bytes, then read it: counter 2 and eight zero bytes. Run one cycle whose read yields 1..8, then read again: those bytes, counter 1, time of the cycle. |
| `LiveMemory.LiveMemory.constructor` | UEDumper/Engine/Live/LiveMemory.cpp:51-53 | The cache starts with no blocks and no loop started. |
| `LiveMemory.LiveMemory.AddNewBlock` | UEDumper/Engine/Live/LiveMemory.cpp:55-74 | The new map and the returned block are exactly those of `BlockStore.AddNewBlock` on the old map. Well-formedness is kept. |
| `LiveMemory.LiveMemory.GetMemoryBlock` | UEDumper/Engine/Live/LiveMemory.cpp:97-107 | The new map and the returned block are exactly those of `BlockStore.GetMemoryBlock` on the old map. |
| `LiveMemory.LiveMemory.FreeBlock` | UEDumper/Engine/Live/LiveMemory.cpp:76-85 | The new map is `BlockStore.FreeBlock` of the old one. |
| `LiveMemory.LiveMemory.GetBlockInfo` | UEDumper/Engine/Live/LiveMemory.cpp:109-122 | Returns `BlockStore.BlockInfo` of the current map; `""` exactly for an unknown address. It has no modifies clause, so it changes nothing. |
| `LiveMemory.LiveMemory.RefreshPass` | UEDumper/Engine/Live/LiveMemory.cpp:12-35 | The loop over every key leaves the map equal to `BlockStore.RefreshPass` of the old map. |
| `LiveMemory.LiveMemory.MemoryLoopCycle` | UEDumper/Engine/Live/LiveMemory.cpp:10-46 | One iteration of the loop, with both passes, leaves the map equal to one `BlockStore.RefreshPass` of the old map. |
| `LiveMemory.LiveMemory.CacheBlocks` | UEDumper/Engine/Live/LiveMemory.cpp:87-95 | Afterwards `done` is set. A loop is launched only on the call that found `done` clear, so at most one loop is started per cache object. |
| `Decimal.ToDecimal` | UEDumper/Engine/Live/LiveMemory.cpp:121 | `std::to_string` of the counter: at least one character, all decimal digits, no leading zero. |
| `Decimal.FromToDecimal` | UEDumper/Engine/Live/LiveMemory.cpp:121 | Reading the decimal text back gives the counter. |
| `Structs.TArray.constructor` | UEDumper/Engine/structs.h:65-74 | A default array has null `Data` and `Count == Max == 0`, so `Num() == 0`, `Slack() == 0`, and it holds no elements. |
| `Structs.TArray.Slack` | UEDumper/Engine/structs.h:91-94 | On a well-formed array the slack lies between 0 and `Max`. It is 0 exactly when the array is full. |
| `Structs.IsValidIndexAcceptsNegative` | UEDumper/Engine/structs.h:86-89 | `IsValidIndex` checks only `i < Num()`, so index -1 passes on every well-formed array. |
| `Structs.TArray.IsValidIndexChecked` | UEDumper/Engine/structs.h:86-89 | The corrected check holds exactly when `IsValidIndex` holds and the index is not negative. When it holds, `Data` is non-null and the index is inside it. |
| `Structs.RemoveSwapAt` | UEDumper/Engine/structs.h:98-105 | Removing at `Index` fills slot `Index` with the old last element. Every other slot below the new count keeps its element. |
| `Structs.RemoveSwapMultiset` | UEDumper/Engine/structs.h:98-105 | The remaining elements are the old ones minus exactly the removed one, as multisets. |
| `Structs.TArray.RemoveSingle` | UEDumper/Engine/structs.h:96-108 | Returns true exactly when `Index < Count`. False changes neither `Count` nor `Data`. True lowers `Count` by exactly one and writes the old last element into slot `Index`, a no-op when `Index` was the last slot. No other slot changes, and the live elements become `RemoveSwap` of the old ones. |
| `Structs.TArray.RemoveAt` | UEDumper/Engine/structs.h:110-117 | The loop of `RemoveSingle` calls at `Index`, `Index + 1`, … leaves the live elements equal to `RemoveAtSeq` of the old ones. `Count` never rises, and for `Length >= 0` it falls by at most `Length`. Slots at or above the new `Count` are not written. |
| `Structs.RemoveAtEffect` | UEDumper/Engine/structs.h:110-117 | `RemoveAt` removes exactly `RemoveAtSteps(Count - Index, Length)` elements: `ceil((Count - Index) / 2)` capped by a non-negative `Length`. It never grows the array and keeps every element below `Index`. What is left is the old multiset minus exactly the original elements at `Index .. Index + RemoveAtSteps(Count - Index, Length) - 1`. |
| `Structs.RemoveAtLength` | UEDumper/Engine/structs.h:112-115 | The exact number of elements `RemoveAt` removes. |
| `Structs.RemoveAtKeepsPrefix` | UEDumper/Engine/structs.h:112-115 | `RemoveAt` does not touch elements below `Index`. |
| `Structs.RemoveAtMultiset` | UEDumper/Engine/structs.h:112-115 | What `RemoveAt` leaves is a sub-multiset of what was there. For `Index <= Count` it is exactly the old multiset minus the original elements at `Index .. Index + RemoveAtSteps(Count - Index, Length) - 1`. |
| `Structs.RemoveAtStopsShort` | UEDumper/Engine/structs.h:110-117 | Asked to remove both elements of `[x, y]` from index 0, `RemoveAt` leaves `[y]`. The corrected range removal leaves `[]`. |
| `Structs.RemoveAtWithinHalf` | UEDumper/Engine/structs.h:110-117 | Within half the tail `RemoveAt` does remove the whole range: `[a, b, c, d, e]` with `RemoveAt(1, 2)` gives `[a, e, d]`. |
| `Structs.RemoveRange` | UEDumper/Engine/structs.h:110-117 | Corrected `RemoveAt`: removes `min(Length, Count - Index)` elements, exactly the multiset of the range `Index .. Index + Length`, and keeps the elements below `Index`. |
| `Structs.RemoveDescendingEffect` | UEDumper/Engine/structs.h:98-105 | Repeated swap-removal from the top of a range down to its bottom removes exactly that range. |
| `Structs.Wcslen` | UEDumper/Engine/structs.h:131 | `wcslen` counts 16-bit code units: the length of a terminated wide string is the position of its first NUL unit, and no earlier unit is NUL. |
| `Structs.FromWideString` | UEDumper/Engine/structs.h:129-137 | Non-empty input: `Count == Max` = the code units up to and including the terminator, at least 2; slot `Count - 1` is the first NUL; `Data` points at the input. Empty input: the null string with `Count == Max == 0`. |
| `Structs.FromWideStringSurrogatePair` | UEDumper/Engine/structs.h:129-137 | A character outside the Basic Multilingual Plane counts as two units: `L"\U0001F600"` (D83D DE00) gives `Count == Max == 3`. |
| `Structs.FromWideStringValid` | UEDumper/Engine/structs.h:139-142 | `IsValid()` of the constructed string holds exactly when the input is non-empty. Then `Count` is `wcslen + 1`. |
| `Structs.EnumAsByteValue` | UEDumper/Engine/structs.h:219-242 | Built from a byte, `GetValue` returns it unchanged. Built from an `int32_t`, the value is stored modulo 256, so it comes back unchanged exactly when it is in 0..255, and values 256 apart give the same byte. |
| `Structs.InterfaceNullGuard` | UEDumper/Engine/structs.h:185-208 | `GetInterface()` is null whenever the object pointer is null, and the interface pointer otherwise. `TScriptInterface`'s bool holds exactly when both pointers are non-null. |
| `Structs.PairAccessors` | UEDumper/Engine/structs.h:256-279 | `Key()` and `Value()` return what the pair was built from. |
| `Structs.UniquePtrConversions` | UEDumper/Engine/structs.h:286-302 | The bool conversion holds exactly when the pointer is non-null, and `!` is its negation. The default pointer is not valid. |

## Left out

- `LiveMemory.LiveMemory.CacheBlocks`: the class stands for the single process-wide cache. In the source `done` is a function-local `static bool` (LiveMemory.cpp:89), one variable for the whole process that the empty constructor (LiveMemory.cpp:51-53) never resets. The model makes `done` a field, and the constructor gives the state at program start. So the at-most-one-loop guarantee is per cache object: two model objects could each start a loop, which the source would not.
- Threads: `CreateThread` (the loop's own thread), the endless `while(true)`, `Sleep(MEMORY_UPDATE_SPEED)` and the unsynchronised race between the loop and callers. Concurrency is not modelled. One loop iteration is a method, and `cacheBlocks` is the `done` flag plus a ghost count of launched loops.
- `Memory::read`: its internals, its failures and its return value are not modelled. The code ignores that return value. The read is a parameter that gives exactly `size` bytes.
- The commented-out eviction in the refresh loop: it is dead code. There is no eviction, no stop signal, no allocation-failure path, and no combined release-and-erase; the code has none of these.
- Aliasing of the returned block: `addNewBlock` (LiveMemory.cpp:61-63, :72) returns a reference to the stored entry. `getMemoryBlock` (LiveMemory.cpp:104-106) returns a copy whose `buffer` pointer is the stored one. So a later refresh changes the bytes the caller holds, and through `addNewBlock`'s reference also the counter and the time it sees. The model returns a value snapshot of the block.
- `freeBlock`: `free` of the raw buffer becomes a `released` flag on the entry. The model does not capture what happens when a released buffer is read, refreshed or freed again (use-after-free and double free in the source).
- Logging through `windows::LogWindow::Log`, and `ImGui::SameLine` in `getBlockInfo`: these are UI side effects.
- `localtime_s`/`put_time`: they depend on locale and time zone. The time text is the `formatTime` parameter.
- `LiveMemory.LiveMemory.AddNewBlock`: takes `size` as a `nat`. A negative `int size`, which `calloc` would reject, is not modelled. Neither is `calloc` failing.
- `BlockStore.GetMemoryBlock`, `BlockStore.AddNewBlock`: the usage counter is unbounded. Both increment it (LiveMemory.cpp:62, :68, :105), and its `int` overflow after 2^31 accesses between two cycles is not modelled.
- Raw pointers: `buffer` stored as `uint64_t`, `calloc`, `reinterpret_cast`, and `TArray::operator[]` / `Data[i]` on a raw pointer. Buffers are sequences, `TArray::Data` is an `array?`, and `RemoveSingle`/`RemoveAt` require `0 <= Index`.
- `Structs.TArray.RemoveSingle`: a negative `Index` is not modelled. The source does not reject it: `RemoveSingle(-1)` on an empty array passes `-1 < Count`, writes nothing because `-1 == Count - 1`, sets `Count` to -1 and returns true, and `IsValidIndex(-1)` approves that call.
- `Structs.TArray.RemoveAt`: the loop counters are unbounded integers. For a negative `Length`, `--Length` overflows `int` once more than `Length - INT_MIN` removals succeed. With `Length == INT_MIN` the first successful removal already does it, so a one-element array suffices. That overflow is not modelled: the model keeps counting down. The default argument `Length = 1` is not modelled either: callers pass it.
- `Structs.TArray.Slack`: returns an unbounded integer. `Max - Count` overflowing `int32` is possible only on a malformed array, and is not modelled.
- `Structs.FromWideString`: requires the string to be shorter than 2^31 - 1 code units. Otherwise `static_cast<int32_t>(wcslen) + 1` would truncate or overflow.
- `FString::ToString` (locale-dependent narrowing) and `FString::c_str` (returns the raw pointer).
- `TEnumAsByte`'s default constructor leaves the byte uninitialised, so it is not modelled. `operator TEnum` is the same as `GetValue`.
- `FScriptInterface::GetObjectRef` (a reference to the field) and `TScriptInterface`'s `->`/`*` (casts of `GetInterface()`). Likewise `TUniquePtr::Get`, `operator->` and `operator*` (structs.h:304-322), which hand out the raw pointer or what it points at, and `TPair`'s default constructor (structs.h:261), which leaves both members default-initialised.
- `FName`, `FUObjectItem`, `FQWord`, `TMap`, `FScriptMulticastDelegate`, `FTextData` and `FText`: memory layouts without behaviour. `FName`'s layout also depends on preprocessor switches.

## Findings

| source | as written | input that shows it | evidently intended | confidence | as-written member | corrected member |
|---|---|---|---|---|---|---|
| UEDumper/Engine/structs.h:110-117 | `RemoveAt` calls `RemoveSingle(Index++)`. Each removal moves the last element into the gap and then also advances the index, so the loop stops once the index has passed the shrunken count. It removes `RemoveAtSteps(Count - Index, Length)` elements: `Length`, capped at `ceil((Count - Index) / 2)`. They are exactly the original elements at `Index .. Index + RemoveAtSteps(Count - Index, Length) - 1`. So it removes the right elements whenever `Length <= ceil((Count - Index) / 2)`; for example `[a, b, c, d, e]` with `RemoveAt(1, 2)` gives `[a, e, d]`. It falls short only when the range reaches into the upper half of the tail. | `[x, y]` with `RemoveAt(0, 2)` leaves `[y]`. | Remove `Length` elements starting at `Index`, or all of them to the end. | medium; not executed | `Structs.RemoveAtStopsShort` (on `Structs.RemoveAtSeq`, with the exact count and removed range in `Structs.RemoveAtEffect` and the agreeing case in `Structs.RemoveAtWithinHalf`) | `Structs.RemoveRange` |
| UEDumper/Engine/structs.h:86-89 | `IsValidIndex(i)` tests only `i < Num()`. | `i = -1` on any array, including an empty one, is reported valid. | `0 <= i < Num()`, the bound that indexing `Data` needs. | medium; not executed | `Structs.IsValidIndexAcceptsNegative` | `Structs.TArray.IsValidIndexChecked` |
