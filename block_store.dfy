/**
 * The block store of the live-memory cache, as values: the map from remote
 * address to cached block and every operation on it as a function from the
 * old map to the new one. The `LiveMemory` class is proved against these.
 */
module BlockStore {
  import opened Types
  import Decimal

  /**
   * One locally mirrored region of the target process. `released` records
   * that `freeBlock` has handed the buffer back to the allocator while the
   * entry itself stays in the map.
   */
  datatype MemoryBlock = MemoryBlock(
    gameAddress: uint64,
    buffer: seq<byte>,
    size: nat,
    usageCounter: nat,
    updateTimeStamp: int,
    released: bool)

  /** The value-initialised block `{}` handed out for an unknown address. */
  const DefaultBlock: MemoryBlock := MemoryBlock(0, [], 0, 0, 0, false)

  type Store = map<uint64, MemoryBlock>

  /**
   * The remote-read primitive `Memory::read(address, buffer, size)`, seen
   * through what it leaves in the buffer: `size` bytes for `address`.
   */
  type ReadPrimitive = f: (uint64, nat) -> seq<byte> | forall a: uint64, n: nat :: |f(a, n)| == n
    witness (a: uint64, n: nat) => seq(n, _ => 0)

  /** Every entry is filed under its own address and holds `size` bytes. */
  predicate WellFormed(m: Store) {
    forall a :: a in m ==> m[a].gameAddress == a && |m[a].buffer| == m[a].size
  }

  /** The record of one more access to a block. */
  function Accessed(b: MemoryBlock): MemoryBlock {
    b.(usageCounter := b.usageCounter + 1)
  }

  /**
   * `addNewBlock(address, size)`: a known address only gains one access (the
   * size passed is ignored); a new address gets a zero-filled block of
   * `size` bytes that counts one access. Returns the new map and the block.
   */
  function AddNewBlock(m: Store, address: uint64, size: nat): (r: (Store, MemoryBlock))
    ensures r.0.Keys == m.Keys + {address}
    ensures r.1 == r.0[address]
    ensures forall a :: a in m && a != address ==> r.0[a] == m[a]
    ensures address in m ==>
      && r.1.usageCounter == m[address].usageCounter + 1
      && r.1.size == m[address].size
      && r.1.buffer == m[address].buffer
      && r.1.updateTimeStamp == m[address].updateTimeStamp
      && r.1.gameAddress == m[address].gameAddress
      && r.1.released == m[address].released
    ensures address !in m ==>
      && r.1.gameAddress == address
      && r.1.size == size
      && r.1.usageCounter == 1
      && r.1.updateTimeStamp == 0
      && |r.1.buffer| == size
      && (forall i :: 0 <= i < size ==> r.1.buffer[i] == 0)
      && !r.1.released
  {
    var b := if address in m then Accessed(m[address])
             else MemoryBlock(address, seq(size, _ => 0), size, 1, 0, false);
    (m[address := b], b)
  }

  /**
   * `getMemoryBlock(address)`: an unknown address yields the default block
   * and leaves the map alone; a known one gains one access and is returned
   * as it is after that access.
   */
  function GetMemoryBlock(m: Store, address: uint64): (r: (Store, MemoryBlock))
    ensures address !in m ==> r.0 == m && r.1 == DefaultBlock
    ensures r.0.Keys == m.Keys
    ensures forall a :: a in m && a != address ==> r.0[a] == m[a]
    ensures address in m ==>
      && r.1 == r.0[address]
      && r.1.usageCounter == m[address].usageCounter + 1
      && r.1.size == m[address].size
      && r.1.buffer == m[address].buffer
      && r.1.updateTimeStamp == m[address].updateTimeStamp
      && r.1.gameAddress == m[address].gameAddress
      && r.1.released == m[address].released
  {
    if address !in m then (m, DefaultBlock)
    else
      var b := Accessed(m[address]);
      (m[address := b], b)
  }

  /**
   * `freeBlock(address)`: releases the buffer of a known block but keeps its
   * entry; nothing happens for an unknown address.
   */
  function FreeBlock(m: Store, address: uint64): (r: Store)
    ensures r.Keys == m.Keys
    ensures address !in m ==> r == m
    ensures forall a :: a in m && a != address ==> r[a] == m[a]
    ensures address in m ==>
      && r[address].released
      && r[address].buffer == m[address].buffer
      && r[address].size == m[address].size
      && r[address].usageCounter == m[address].usageCounter
      && r[address].updateTimeStamp == m[address].updateTimeStamp
      && r[address].gameAddress == m[address].gameAddress
  {
    if address !in m then m else m[address := m[address].(released := true)]
  }

  /**
   * `getBlockInfo(address)`: empty for an unknown address, otherwise the
   * refresh time (rendered by `formatTime`, the local clock format) followed
   * directly by the decimal usage counter. Empty exactly when unknown.
   */
  function BlockInfo(m: Store, address: uint64, formatTime: int -> string): (s: string)
    ensures s == "" <==> address !in m
    ensures address in m ==>
      var time := formatTime(m[address].updateTimeStamp);
      && 11 + |time| < |s|
      && s[..11] == "updated at "
      && s[11..11 + |time|] == time
      && (forall i :: 11 + |time| <= i < |s| ==> Decimal.IsDigit(s[i]))
      && Decimal.FromDecimal(s[11 + |time|..]) == m[address].usageCounter
  {
    if address !in m then ""
    else
      var counter := Decimal.ToDecimal(m[address].usageCounter);
      Decimal.FromToDecimal(m[address].usageCounter);
      "updated at " + formatTime(m[address].updateTimeStamp) + counter
  }

  /** One visit of the refresh loop to the block filed under `address`. */
  function RefreshBlock(address: uint64, b: MemoryBlock, time: int, read: ReadPrimitive): MemoryBlock {
    if b.usageCounter == 0 then b
    else b.(updateTimeStamp := time, buffer := read(address, b.size), usageCounter := 0)
  }

  /**
   * One pass of `memoryLoop` over the whole map: idle blocks are left as
   * they are, used blocks are stamped with `time`, re-read and reset.
   */
  function RefreshPass(m: Store, time: int, read: ReadPrimitive): (r: Store)
    ensures r.Keys == m.Keys
    ensures forall a :: a in m && m[a].usageCounter == 0 ==> r[a] == m[a]
    ensures forall a :: a in m && m[a].usageCounter > 0 ==>
      && r[a].updateTimeStamp == time
      && r[a].buffer == read(a, m[a].size)
      && r[a].usageCounter == 0
      && r[a].size == m[a].size
      && r[a].gameAddress == m[a].gameAddress
      && r[a].released == m[a].released
    ensures forall a :: a in r ==> r[a].usageCounter == 0
  {
    map a | a in m :: RefreshBlock(a, m[a], time, read)
  }

  /** One iteration of `memoryLoop`'s outer loop: the iterator pass, then the range-for pass. */
  function MemoryLoopCycle(m: Store, time: int, read: ReadPrimitive): Store {
    RefreshPass(RefreshPass(m, time, read), time, read)
  }

  /** The input of one refresh cycle: the captured time and what the remote reads return. */
  datatype CycleInput = CycleInput(time: int, read: ReadPrimitive)

  /** A run of consecutive refresh cycles with no access in between. */
  function Cycles(m: Store, steps: seq<CycleInput>): (r: Store)
    ensures r.Keys == m.Keys
    decreases |steps|
  {
    if steps == [] then m
    else Cycles(MemoryLoopCycle(m, steps[0].time, steps[0].read), steps[1..])
  }

  /** `k` successive `getMemoryBlock(address)` calls. */
  function GetRepeated(m: Store, address: uint64, k: nat): Store {
    if k == 0 then m else GetRepeated(GetMemoryBlock(m, address).0, address, k - 1)
  }

  // ---------------------------------------------------------------- lemmas

  /** The second pass of a cycle finds every counter at 0 and changes nothing. */
  lemma SecondPassChangesNothing(m: Store, time: int, read: ReadPrimitive)
    ensures MemoryLoopCycle(m, time, read) == RefreshPass(m, time, read)
  {
  }

  lemma AddNewBlockKeepsWellFormed(m: Store, address: uint64, size: nat)
    requires WellFormed(m)
    ensures WellFormed(AddNewBlock(m, address, size).0)
  {
  }

  lemma GetMemoryBlockKeepsWellFormed(m: Store, address: uint64)
    requires WellFormed(m)
    ensures WellFormed(GetMemoryBlock(m, address).0)
  {
  }

  lemma FreeBlockKeepsWellFormed(m: Store, address: uint64)
    requires WellFormed(m)
    ensures WellFormed(FreeBlock(m, address))
  {
  }

  /** A cycle re-reads exactly `size` bytes, so buffers keep their length. */
  lemma CycleKeepsWellFormed(m: Store, time: int, read: ReadPrimitive)
    requires WellFormed(m)
    ensures WellFormed(MemoryLoopCycle(m, time, read))
  {
  }

  /** `k` accesses raise the counter of a known block by exactly `k` and touch nothing else. */
  lemma {:induction false} GetRepeatedCounts(m: Store, address: uint64, k: nat)
    requires address in m
    ensures var r := GetRepeated(m, address, k);
      && r.Keys == m.Keys
      && r[address] == m[address].(usageCounter := m[address].usageCounter + k)
      && forall a :: a in m && a != address ==> r[a] == m[a]
  {
    if k > 0 {
      var m1 := GetMemoryBlock(m, address).0;
      GetRepeatedCounts(m1, address, k - 1);
    }
  }

  /** `addNewBlock` on a new address followed by `k` `getMemoryBlock` calls leaves the counter at `k + 1`. */
  lemma AddThenGetCounter(m: Store, address: uint64, size: nat, k: nat)
    requires address !in m
    ensures var r := GetRepeated(AddNewBlock(m, address, size).0, address, k);
      address in r && r[address].usageCounter == k + 1
  {
    GetRepeatedCounts(AddNewBlock(m, address, size).0, address, k);
  }

  /** A block nobody reads is left exactly as it was by any number of cycles. */
  lemma {:induction false} IdleBlockUntouched(m: Store, address: uint64, steps: seq<CycleInput>)
    requires address in m && m[address].usageCounter == 0
    ensures Cycles(m, steps)[address] == m[address]
    decreases |steps|
  {
    if steps != [] {
      var m1 := MemoryLoopCycle(m, steps[0].time, steps[0].read);
      SecondPassChangesNothing(m, steps[0].time, steps[0].read);
      IdleBlockUntouched(m1, address, steps[1..]);
    }
  }

  /**
   * A block created and then never read again is refreshed by the first
   * cycle only (its creation counts as one access) and is then left alone.
   */
  lemma CreatedBlockRefreshedOnce(m: Store, address: uint64, size: nat, steps: seq<CycleInput>)
    requires address !in m && |steps| >= 1
    ensures var r := Cycles(AddNewBlock(m, address, size).0, steps);
      && r[address].buffer == steps[0].read(address, size)
      && r[address].updateTimeStamp == steps[0].time
      && r[address].usageCounter == 0
  {
    var m0 := AddNewBlock(m, address, size).0;
    var m1 := MemoryLoopCycle(m0, steps[0].time, steps[0].read);
    SecondPassChangesNothing(m0, steps[0].time, steps[0].read);
    IdleBlockUntouched(m1, address, steps[1..]);
  }

  /**
   * An example: create 0x1000 with 8 bytes, read it once (counter 2,
   * eight zero bytes), run a cycle whose read yields 1..8, read again: the
   * new bytes come back and the counter is 1.
   */
  lemma ReadAfterRefreshExample(m: Store, time: int, read: ReadPrimitive)
    requires 0x1000 !in m
    requires read(0x1000, 8) == [1, 2, 3, 4, 5, 6, 7, 8]
    ensures var m1 := AddNewBlock(m, 0x1000, 8).0;
      var peek1 := GetMemoryBlock(m1, 0x1000);
      var m3 := MemoryLoopCycle(peek1.0, time, read);
      var peek2 := GetMemoryBlock(m3, 0x1000).1;
      && peek1.1.usageCounter == 2
      && peek1.1.buffer == [0, 0, 0, 0, 0, 0, 0, 0]
      && peek2.buffer == [1, 2, 3, 4, 5, 6, 7, 8]
      && peek2.usageCounter == 1
      && peek2.updateTimeStamp == time
  {
  }
}
