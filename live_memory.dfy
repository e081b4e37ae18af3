/**
 * The live-memory cache as the program keeps it: one object holding the
 * block map and the start-once flag, with each operation updating them in
 * place. Threads and sleeping are not part of this model; one iteration of
 * the refresh loop is a method of its own.
 */
module LiveMemory {
  import opened Types
  import BlockStore
  import Decimal

  /**
   * The process's one block cache. The source keeps `done` as a static
   * local of `cacheBlocks`; here it is a field, and the constructor gives
   * the state at program start.
   */
  class LiveMemory {
    var memoryBlocks: BlockStore.Store
    /** Set by the first `CacheBlocks` call. */
    var done: bool
    /** How many refresh loops have been launched. */
    ghost var loopsStarted: nat

    ghost predicate Valid()
      reads this
    {
      && BlockStore.WellFormed(memoryBlocks)
      && loopsStarted == (if done then 1 else 0)
    }

    constructor ()
      ensures Valid()
      ensures memoryBlocks == map[] && !done && loopsStarted == 0
    {
      memoryBlocks := map[];
      done := false;
      loopsStarted := 0;
    }

    method AddNewBlock(address: uint64, size: nat) returns (b: BlockStore.MemoryBlock)
      requires Valid()
      modifies this`memoryBlocks
      ensures Valid()
      ensures (memoryBlocks, b) == BlockStore.AddNewBlock(old(memoryBlocks), address, size)
    {
      if address in memoryBlocks {
        b := memoryBlocks[address];
        b := b.(usageCounter := b.usageCounter + 1);
        memoryBlocks := memoryBlocks[address := b];
        return;
      }
      var buffer := seq(size, _ => 0);
      b := BlockStore.MemoryBlock(address, buffer, size, 1, 0, false);
      memoryBlocks := memoryBlocks[address := b];
    }

    method FreeBlock(address: uint64)
      requires Valid()
      modifies this`memoryBlocks
      ensures Valid()
      ensures memoryBlocks == BlockStore.FreeBlock(old(memoryBlocks), address)
    {
      if address !in memoryBlocks {
        return;
      }
      memoryBlocks := memoryBlocks[address := memoryBlocks[address].(released := true)];
    }

    /** Launches the refresh loop on the first call only. */
    method CacheBlocks()
      requires Valid()
      modifies this`done, this`loopsStarted
      ensures Valid() && done
      ensures loopsStarted == (if old(done) then old(loopsStarted) else old(loopsStarted) + 1)
      ensures loopsStarted <= 1
    {
      if done {
        return;
      }
      done := true;
      loopsStarted := loopsStarted + 1;
    }

    method GetMemoryBlock(address: uint64) returns (b: BlockStore.MemoryBlock)
      requires Valid()
      modifies this`memoryBlocks
      ensures Valid()
      ensures (memoryBlocks, b) == BlockStore.GetMemoryBlock(old(memoryBlocks), address)
    {
      if address !in memoryBlocks {
        return BlockStore.DefaultBlock;
      }
      b := memoryBlocks[address];
      b := b.(usageCounter := b.usageCounter + 1);
      memoryBlocks := memoryBlocks[address := b];
    }

    /** Reads the store only: no counter moves and no entry appears. */
    method GetBlockInfo(address: uint64, formatTime: int -> string) returns (s: string)
      ensures s == BlockStore.BlockInfo(memoryBlocks, address, formatTime)
      ensures s == "" <==> address !in memoryBlocks
    {
      if address !in memoryBlocks {
        return "";
      }
      var block := memoryBlocks[address];
      s := "updated at " + formatTime(block.updateTimeStamp) + Decimal.ToDecimal(block.usageCounter);
    }

    /** One walk over every block: used blocks are stamped, re-read and reset. */
    method RefreshPass(time: int, read: BlockStore.ReadPrimitive)
      requires Valid()
      modifies this`memoryBlocks
      ensures Valid()
      ensures memoryBlocks == BlockStore.RefreshPass(old(memoryBlocks), time, read)
    {
      ghost var start := memoryBlocks;
      var pending := memoryBlocks.Keys;
      while pending != {}
        invariant pending <= start.Keys
        invariant memoryBlocks.Keys == start.Keys
        invariant forall a :: a in pending ==> memoryBlocks[a] == start[a]
        invariant forall a :: a in start && a !in pending ==>
          memoryBlocks[a] == BlockStore.RefreshBlock(a, start[a], time, read)
        decreases pending
      {
        var address :| address in pending;
        var block := memoryBlocks[address];
        if block.usageCounter != 0 {
          block := block.(updateTimeStamp := time);
          block := block.(buffer := read(address, block.size));
          block := block.(usageCounter := 0);
          memoryBlocks := memoryBlocks[address := block];
        }
        pending := pending - {address};
      }
      assert memoryBlocks == BlockStore.RefreshPass(start, time, read);
    }

    /** One iteration of the refresh loop: both of its passes over the map. */
    method MemoryLoopCycle(time: int, read: BlockStore.ReadPrimitive)
      requires Valid()
      modifies this`memoryBlocks
      ensures Valid()
      ensures memoryBlocks == BlockStore.MemoryLoopCycle(old(memoryBlocks), time, read)
      ensures memoryBlocks == BlockStore.RefreshPass(old(memoryBlocks), time, read)
    {
      BlockStore.SecondPassChangesNothing(memoryBlocks, time, read);
      RefreshPass(time, read);
      RefreshPass(time, read);
    }
  }
}
