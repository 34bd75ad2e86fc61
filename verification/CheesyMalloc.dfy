/** The cheesymalloc allocator: power-of-two bins over mapped pages, and whole mappings for big blocks. */
module CheesyMalloc {

  import opened CheesySpec
  import opened LiteLog2
  import opened Options
  import opened Sums
  import opened Words
  import opened Folding

  class Arena {
    /** `bins[b]` is the free list of blocks of length 2^b - 1, first out first. */
    var bins: seq<seq<Addr>>
    /** The headers in memory, by address. */
    var blocks: map<Addr, Block>
    var acct: Accounting
    /** What is mapped, and the mapping each block was carved from. */
    ghost var regions: map<Addr, int>
    ghost var home: map<Addr, Addr>

    ghost predicate Valid()
      reads this
    {
      var ok :=
        && Layout(blocks, home, regions)
        && AllSized(blocks)
        && Lists(bins, blocks, {})
        && Counted(acct, blocks, 0)
        && Mapped(acct, blocks, regions);
      ok
    }

    constructor ()
      ensures Valid()
      ensures Live(blocks) == map[] && regions == map[]
    {
      bins := seq(NUM_BINS, _ => []);
      blocks := map[];
      acct := Accounting(0, 0, 0, 0, 0, 0);
      regions, home := map[], map[];
      new;
      NothingYet(bins);
      NothingCounted();
    }

    method InsertFreeList(bin: nat, a: Addr, ghost held: set<Addr>, ghost heldBytes: int)
      requires bin < NUM_BINS && a in held && a in blocks
      requires blocks[a].isFree && blocks[a].length == Pow2(bin) - 1 && BitLength(blocks[a].length) == bin
      requires Lists(bins, blocks, held) && Counted(acct, blocks, heldBytes)
      modifies this`bins, this`acct
      ensures Lists(bins, blocks, held - {a}) && Counted(acct, blocks, heldBytes - blocks[a].length)
      ensures bins == old(bins)[bin := [a] + old(bins)[bin]]
      ensures acct == old(acct).(inFreeBlocks := acct.inFreeBlocks)
      ensures Mapped(old(acct), blocks, regions) ==> Mapped(acct, blocks, regions)
    {
      ListsPush(bins, blocks, held, bin, a);
      CountedHeld(acct, blocks, heldBytes, 0 - blocks[a].length);
      bins := bins[bin := [a] + bins[bin]];
      acct := acct.(inFreeBlocks := acct.inFreeBlocks + blocks[a].length);
    }

    /** The counters balance, so the allocator's own check of them in 32 bits always passes. */
    method CheckAccounting() returns (ok: bool)
      requires Valid()
      ensures ok
      ensures (acct.mapFragmented + acct.inFreeBlocks + acct.header + acct.blockFragmented + acct.user) % WORD
              == acct.mapped % WORD
    {
      var usage := Usage(acct) % WORD;
      ok := usage == acct.mapped % WORD;
      Balanced(acct, blocks, regions);
    }

    /** Layout, sizes, lists and counters are in order, but for blocks held off their lists. */
    ghost predicate Books(held: set<Addr>, heldBytes: int)
      reads this
    {
      var ok :=
        && Layout(blocks, home, regions) && AllSized(blocks)
        && Lists(bins, blocks, held) && Counted(acct, blocks, heldBytes);
      ok
    }

    /** Write the header of a free block in fresh memory. */
    method CarveBlock(memory: Addr, at: Addr, length: nat, ghost held: set<Addr>, ghost heldBytes: int)
      requires Books(held, heldBytes) && Sized(Block(length, true, 0))
      requires CanCarve(blocks, home, regions, memory, at, length)
      modifies this`blocks, this`home
      ensures at !in old(blocks)
      ensures blocks == old(blocks)[at := Block(length, true, 0)] && home == old(home)[at := memory]
      ensures Books(held + {at}, heldBytes + length)
      ensures Total(blocks, Length) == Total(old(blocks), Length) + length && Live(blocks) == Live(old(blocks))
    {
      CarveBooks(blocks, home, regions, memory, at, length, bins, held, acct, heldBytes);
      blocks := blocks[at := Block(length, true, 0)];
      home := home[at := memory];
    }

    /** Carve the next block: the first is the caller's, the others go on the free list. */
    method CarveNext(result: Option<Addr>, bin: nat, memory: Addr, at: Addr, length: nat)
      returns (result': Option<Addr>)
      requires Books(Held(result), HeldBytes(result, length)) && Sized(Block(length, true, 0))
      requires length > 0 && BitLength(length) == bin && (bin < NUM_BINS ==> length == Pow2(bin) - 1)
      requires Carving(blocks, home, result, memory, at, length)
      requires memory in regions && regions[memory] == RoundUpPages(length)
      requires at + length <= memory + RoundUpPages(length)
      modifies this`bins, this`blocks, this`home, this`acct
      ensures Books(Held(result'), HeldBytes(result', length))
      ensures Carving(blocks, home, result', memory, at + length + 1, length)
      ensures result' == if result.Some? then result else Some(at)
      ensures at !in old(blocks) && blocks == old(blocks)[at := Block(length, true, 0)]
      ensures result.Some? ==> bin < NUM_BINS
      ensures bins == if result.Some? then old(bins)[bin := [at] + old(bins)[bin]] else old(bins)
      ensures Total(blocks, Length) == Total(old(blocks), Length) + length
      ensures Live(blocks) == Live(old(blocks))
      ensures acct == old(acct).(inFreeBlocks := acct.inFreeBlocks)
    {
      CarvingGoesOn(blocks, home, regions, result, memory, at, length);
      result' := if result.Some? then result else Some(at);
      CarvingStep(blocks, home, result, memory, at, length);
      CarveBlock(memory, at, length, Held(result), HeldBytes(result, length));
      if result.Some? {
        BigIff(length);
        ListBlock(bin, at, length, Held(result));
      } else {
        assert Held(result) + {at} == Held(result');
      }
    }

    /** A further block of the mapping goes on the free list. */
    method ListBlock(bin: nat, at: Addr, length: nat, ghost held: set<Addr>)
      requires bin < NUM_BINS && at in blocks && at !in held && blocks[at] == Block(length, true, 0)
      requires length == Pow2(bin) - 1 && BitLength(length) == bin
      requires Books(held + {at}, 2 * length)
      modifies this`bins, this`acct
      ensures Books(held, length) && bins == old(bins)[bin := [at] + old(bins)[bin]]
      ensures acct == old(acct).(inFreeBlocks := acct.inFreeBlocks)
    {
      InsertFreeList(bin, at, held + {at}, 2 * length);
      assert held + {at} - {at} == held;
    }

    /** Take a mapping from the host. */
    method AddRegion(memory: Addr, length: nat)
      requires Valid() && FreshRegion(regions, memory, length)
      modifies this`regions, this`acct
      ensures Layout(blocks, home, regions)
      ensures forall b {:trigger home[b]} :: b in blocks ==> home[b] != memory
      ensures regions == old(regions)[memory := length]
      ensures acct == old(acct).(mapped := old(acct).mapped + length)
      ensures acct.mapped == Sum(regions) == acct.mapFragmented + Total(blocks, Length) + length
      ensures Counted(acct, blocks, 0)
    {
      RegionAdded(blocks, home, regions, memory, length);
      MappedMore(acct, blocks, regions, memory, length);
      CountedSame(acct, blocks, 0, acct.(mapped := acct.mapped + length));
      regions := regions[memory := length];
      acct := acct.(mapped := acct.mapped + length);
    }

    /** Map pages, cut them into blocks of the bin's length, keep the first and list the others. */
    method CreateSpace(callerLength: nat, bin: nat, memory: Addr) returns (cmb: Addr, ghost n: nat)
      requires Valid()
      requires OVERHEAD <= callerLength < SANE_ALLOCATION_SIZE && bin == BitLength(callerLength)
      requires FreshRegion(regions, memory, RoundUpPages(BlockLength(callerLength)))
      modifies this
      ensures Holding(cmb)
      ensures blocks[cmb] == Block(BlockLength(callerLength), true, 0)
      ensures cmb !in old(blocks) && cmb == memory
      ensures MappedFor(BlockLength(callerLength), memory, bin, n,
                        old(regions), old(blocks), old(bins), regions, blocks, bins)
      ensures Live(blocks) == Live(old(blocks))
    {
      var length := if bin < NUM_BINS then Pow2(bin) - 1 else callerLength;
      SizedNew(callerLength);
      var mapLength := RoundUpPages(length);
      RoundUpPagesBounds(length);
      AddRegion(memory, mapLength);

      var fragmentation: int;
      cmb, fragmentation, n := CarveAll(bin, memory, length);
      BookFragmentation(cmb, fragmentation);
    }

    /** What of a new mapping lies in no block is booked. */
    method BookFragmentation(cmb: Addr, fragmentation: int)
      requires cmb in blocks && blocks[cmb].isFree && Books({cmb}, blocks[cmb].length)
      requires acct.mapped == Sum(regions) == acct.mapFragmented + Total(blocks, Length) + fragmentation
      modifies this`acct
      ensures Holding(cmb)
    {
      CountedSame(acct, blocks, blocks[cmb].length, acct.(mapFragmented := acct.mapFragmented + fragmentation));
      acct := acct.(mapFragmented := acct.mapFragmented + fragmentation);
      MappedAll(acct, blocks, regions);
    }

    /** Cut a new mapping up; `fragmentation` is what of it lies in no block. */
    method CarveAll(bin: nat, memory: Addr, length: nat) returns (cmb: Addr, fragmentation: int, ghost n: nat)
      requires Books({}, 0) && Sized(Block(length, true, 0))
      requires length > 0 && BitLength(length) == bin && (bin < NUM_BINS ==> length == Pow2(bin) - 1)
      requires forall b {:trigger home[b]} :: b in blocks ==> home[b] != memory
      requires memory in regions && regions[memory] == RoundUpPages(length)
      modifies this`bins, this`blocks, this`home, this`acct
      ensures Books({cmb}, length)
      ensures cmb in blocks && blocks[cmb] == Block(length, true, 0) && cmb !in old(blocks) && cmb == memory
      ensures FitExactly(regions[memory], length, n)
      ensures CarvedInto(old(blocks), blocks, memory, length, n) && Listed(old(bins), bins, bin, memory, length, n)
      ensures Total(blocks, Length) == Total(old(blocks), Length) + regions[memory] - fragmentation
      ensures Live(blocks) == Live(old(blocks))
      ensures acct == old(acct).(inFreeBlocks := acct.inFreeBlocks)
    {
      fragmentation := 0;
      var at, end := memory, memory + RoundUpPages(length);
      var result: Option<Addr> := None;
      n := 0;
      CarvedNone(blocks, memory, length);
      ListedOne(bins, bin, memory, length);
      CarvingStart(blocks, home, memory, length);
      RoundUpPagesBounds(length);
      while at + length <= end
        invariant memory <= at <= end + 1 && at == Start(memory, length, n)
        invariant if n == 0 then result.None? else result == Some(memory)
        invariant CarvedInto(old(blocks), blocks, memory, length, n)
        invariant Listed(old(bins), bins, bin, memory, length, n)
        invariant Books(Held(result), HeldBytes(result, length))
        invariant Carving(blocks, home, result, memory, at, length)
        invariant Total(blocks, Length) == Total(old(blocks), Length) + (at - memory - fragmentation)
        invariant Live(blocks) == Live(old(blocks))
        invariant acct == old(acct).(inFreeBlocks := acct.inFreeBlocks)
      {
        ghost var blocks', bins' := blocks, bins;
        result := CarveNext(result, bin, memory, at, length);
        CarvedNext(old(blocks), blocks', old(bins), bins', bin, memory, length, n);
        StartNext(memory, length, n);
        n := n + 1;
        at := at + length + 1;
        fragmentation := fragmentation + 1;
      }
      FitsNow(memory, length, n, end);
      CarvedFirst(old(blocks), blocks, memory, length, n);
      fragmentation := fragmentation + (end - at);
      cmb := result.value;
    }

    /** A block is in the caller's hands: free, off its list, and not counted among the free. */
    ghost predicate Holding(cmb: Addr)
      reads this
    {
      var ok :=
        && Layout(blocks, home, regions) && AllSized(blocks)
        && cmb in blocks && blocks[cmb].isFree
        && Lists(bins, blocks, {cmb}) && Counted(acct, blocks, blocks[cmb].length)
        && Mapped(acct, blocks, regions);
      ok
    }

    method TakeFromBin(bin: nat) returns (cmb: Addr)
      requires Valid() && bin < NUM_BINS && bins[bin] != []
      modifies this`bins, this`acct
      ensures Holding(cmb)
      ensures cmb == old(bins)[bin][0] && bins == old(bins)[bin := old(bins)[bin][1..]]
      ensures blocks[cmb].length == Pow2(bin) - 1
    {
      ListsPop(bins, blocks, bin);
      cmb := bins[bin][0];
      bins := bins[bin := bins[bin][1..]];
      CountedHeld(acct, blocks, 0, blocks[cmb].length);
      ghost var was := acct;
      acct := acct.(inFreeBlocks := acct.inFreeBlocks - blocks[cmb].length);
      MappedSame(was, blocks, regions, acct, blocks);
    }

    method HandOut(cmb: Addr, request: nat)
      requires Holding(cmb) && blocks[cmb].length == BlockLength(request + OVERHEAD)
      modifies this`blocks, this`acct
      ensures Valid()
      ensures blocks == old(blocks)[cmb := Block(old(blocks)[cmb].length, false, request)]
      ensures Live(blocks) == Live(old(blocks))[cmb := request] && cmb !in Live(old(blocks))
    {
      var length := blocks[cmb].length;
      var block := Block(length, false, request);
      SizedGiven(blocks, cmb, request);
      ghost var was, before := acct, blocks;
      acct := acct.(blockFragmented := acct.blockFragmented + (length - (request + OVERHEAD)),
                    header := acct.header + OVERHEAD,
                    user := acct.user + request);
      blocks := blocks[cmb := block];
      Retag(before, home, regions, cmb, block);
      AllSizedPut(before, cmb, block);
      CountedPut(was, before, length, cmb, block, acct, 0);
      MappedSame(was, before, regions, acct, blocks);
      LivePut(before, cmb, block);
      ListsKept(bins, before, {cmb}, blocks, {});
    }

    ghost predicate NeedsMapping(request: nat)
      requires |bins| == NUM_BINS
      reads this
    {
      var bin := BitLength(request + OVERHEAD);
      bin >= NUM_BINS || bins[bin] == []
    }

    /** The first block of the bin's free list, or one of a new mapping. */
    method FindBlock(overhead: nat, bin: nat, memory: Addr) returns (cmb: Addr, ghost n: nat)
      requires Valid() && OVERHEAD <= overhead < SANE_ALLOCATION_SIZE && bin == BitLength(overhead)
      requires bin >= NUM_BINS || bins[bin] == [] ==> FreshRegion(regions, memory, RoundUpPages(BlockLength(overhead)))
      modifies this
      ensures Holding(cmb) && blocks[cmb].length == BlockLength(overhead) && Live(blocks) == Live(old(blocks))
      ensures if bin >= NUM_BINS || old(bins)[bin] == [] then
                && cmb == memory && blocks[cmb] == Block(BlockLength(overhead), true, 0)
                && MappedFor(BlockLength(overhead), memory, bin, n,
                             old(regions), old(blocks), old(bins), regions, blocks, bins)
              else
                && regions == old(regions) && blocks == old(blocks) && cmb == old(bins)[bin][0]
                && bins == old(bins)[bin := old(bins)[bin][1..]]
    {
      if bin < NUM_BINS {
        if bins[bin] != [] {
          BlockLengthOk(overhead);
          cmb := TakeFromBin(bin);
          n := 0;
        } else {
          cmb, n := CreateSpace(overhead, bin, memory);
        }
      } else {
        cmb, n := CreateSpace(overhead, bin, memory);
      }
    }

    /** `cheesy_malloc`; `memory` is what the host returns if a new mapping is called for. */
    method Malloc(request: nat, memory: Addr) returns (address: Addr, ghost n: nat)
      requires Valid() && request + OVERHEAD < SANE_ALLOCATION_SIZE
      requires NeedsMapping(request) ==> FreshRegion(regions, memory, RoundUpPages(BlockLength(request + OVERHEAD)))
      modifies this
      ensures Valid()
      ensures var a := address - HEADER_SIZE;
        && a in blocks && blocks[a] == Block(BlockLength(request + OVERHEAD), false, request)
        && a !in Live(old(blocks)) && Live(blocks) == Live(old(blocks))[a := request]
        && var bin := BitLength(request + OVERHEAD);
        blocks[a].length == if bin < NUM_BINS then Pow2(bin) - 1 else request + OVERHEAD
      ensures var bin, length := BitLength(request + OVERHEAD), BlockLength(request + OVERHEAD);
        if old(NeedsMapping(request)) then
          && address == UserAddress(memory) && memory in regions
          && regions[memory] % PAGE == 0 && length <= regions[memory] < length + PAGE
          && MappedFor(length, memory, bin, n, old(regions), old(blocks), old(bins),
                       regions, blocks[memory := Block(length, true, 0)], bins)
        else
          && address == UserAddress(old(bins)[bin][0])
          && blocks == old(blocks)[old(bins)[bin][0] := Block(length, false, request)]
          && regions == old(regions) && bins == old(bins)[bin := old(bins)[bin][1..]]
    {
      var overhead := WithOverhead(request);
      assert overhead == request + OVERHEAD;
      var bin := Log2(overhead);
      var cmb;
      cmb, n := FindBlock(overhead, bin, memory);
      ghost var blocks' := blocks;
      HandOut(cmb, request);
      assert blocks[cmb := blocks'[cmb]] == blocks';
      var ok := CheckAccounting();
      assert ok;
      address := UserAddress(cmb);
    }

    method TakeBack(cmb: Addr)
      requires Valid() && cmb in Live(blocks)
      modifies this`blocks, this`acct
      ensures Holding(cmb)
      ensures blocks == old(blocks)[cmb := Block(old(blocks)[cmb].length, true, 0)]
      ensures Live(blocks) == Live(old(blocks)) - {cmb}
      ensures acct.mapped == old(acct).mapped && acct.mapFragmented == old(acct).mapFragmented
    {
      var length, userLength := blocks[cmb].length, blocks[cmb].userLength;
      var block := Block(length, true, 0);
      SizedFreed(blocks, cmb);
      ghost var was, before := acct, blocks;
      blocks := blocks[cmb := block];
      acct := acct.(header := acct.header - OVERHEAD,
                    user := acct.user - userLength,
                    blockFragmented := acct.blockFragmented - (length - userLength - OVERHEAD));
      Retag(before, home, regions, cmb, block);
      AllSizedPut(before, cmb, block);
      CountedPut(was, before, 0, cmb, block, acct, length);
      MappedSame(was, before, regions, acct, blocks);
      LiveTake(before, cmb, block);
      ListsKept(bins, before, {}, blocks, {cmb});
    }

    /** Give a big block's mapping back; what is unmapped is exactly what was mapped. */
    method ReturnMapping(cmb: Addr) returns (mapLength: nat)
      requires Holding(cmb) && blocks[cmb].length >= BIG
      modifies this
      ensures Valid()
      ensures cmb in old(regions) && mapLength == old(regions)[cmb]
      ensures mapLength % PAGE == 0 && old(blocks)[cmb].length <= mapLength < old(blocks)[cmb].length + PAGE
      ensures regions == old(regions) - {cmb} && blocks == old(blocks) - {cmb} && bins == old(bins)
      ensures Live(blocks) == Live(old(blocks))
    {
      var length := blocks[cmb].length;
      mapLength := RoundUpPages(length);
      RoundUpPagesBounds(length);
      Unmap(blocks, home, regions, cmb);
      ghost var was, before := acct, blocks;
      acct := acct.(mapped := acct.mapped - mapLength,
                    mapFragmented := acct.mapFragmented - (mapLength - length));
      blocks := blocks - {cmb};
      AllSizedTake(before, cmb);
      CountedTake(was, before, length, cmb);
      CountedSame(was, blocks, 0, acct);
      MappedLess(was, before, regions, acct, blocks, cmb);
      LiveTake(before, cmb, before[cmb]);
      ListsDropped(bins, before, cmb);
      regions := regions - {cmb};
      home := home - {cmb};
    }

    /** `cheesy_free`; returns the mapping given back to the host, if one is. */
    method Free(address: Addr) returns (unmapped: Option<(Addr, nat)>)
      requires Valid() && address - HEADER_SIZE in Live(blocks)
      modifies this
      ensures Valid()
      ensures Live(blocks) == Live(old(blocks)) - {address - HEADER_SIZE}
      ensures var a, bin := address - HEADER_SIZE, BitLength(old(blocks)[address - HEADER_SIZE].length);
        if bin < NUM_BINS then
          && old(blocks)[a].length == Pow2(bin) - 1
          && blocks == old(blocks)[a := Block(old(blocks)[a].length, true, 0)]
          && bins == old(bins)[bin := [a] + old(bins)[bin]]
          && regions == old(regions) && unmapped == None
        else
          && a in old(regions) && unmapped == Some((a, old(regions)[a]))
          && old(regions)[a] % PAGE == 0
          && old(blocks)[a].length <= old(regions)[a] < old(blocks)[a].length + PAGE
          && regions == old(regions) - {a} && blocks == old(blocks) - {a} && bins == old(bins)
    {
      var cmb := address - HEADER_SIZE;
      SizedFreed(blocks, cmb);
      TakeBack(cmb);
      var length := blocks[cmb].length;
      var bin := Log2(length);
      BigIff(length);
      if bin < NUM_BINS {
        InsertFreeList(bin, cmb, {cmb}, length);
        unmapped := None;
        assert {cmb} - {cmb} == {};
      } else {
        var mapLength := ReturnMapping(cmb);
        unmapped := Some((cmb, mapLength));
      }
      var ok := CheckAccounting();
      assert ok;
    }
  }

  lemma CarveBooks(blocks: map<Addr, Block>, home: map<Addr, Addr>, regions: map<Addr, int>, memory: Addr, at: Addr,
                   length: nat, bins: seq<seq<Addr>>, held: set<Addr>, acct: Accounting, heldBytes: int)
    requires Layout(blocks, home, regions) && CanCarve(blocks, home, regions, memory, at, length)
    requires AllSized(blocks) && Sized(Block(length, true, 0))
    requires Lists(bins, blocks, held) && Counted(acct, blocks, heldBytes)
    ensures at !in blocks
    ensures var blocks' := blocks[at := Block(length, true, 0)];
            && Layout(blocks', home[at := memory], regions) && AllSized(blocks')
            && Lists(bins, blocks', held + {at}) && Counted(acct, blocks', heldBytes + length)
            && Total(blocks', Length) == Total(blocks, Length) + length && Live(blocks') == Live(blocks)
  {
    Carve(blocks, home, regions, memory, at, length);
    var block := Block(length, true, 0);
    CountedCarved(acct, blocks, heldBytes, at, length);
    AllSizedPut(blocks, at, block);
    LivePut(blocks, at, block);
    ListsCarved(bins, blocks, held, at, block);
  }

  lemma NothingYet(bins: seq<seq<Addr>>)
    requires |bins| == NUM_BINS && forall b :: 0 <= b < NUM_BINS ==> bins[b] == []
    ensures Layout(map[], map[], map[]) && AllSized(map[]) && Lists(bins, map[], {})
  {
    assert Seen(0);
  }

  lemma NothingCounted()
    ensures Counted(Accounting(0, 0, 0, 0, 0, 0), map[], 0)
    ensures Mapped(Accounting(0, 0, 0, 0, 0, 0), map[], map[])
  {
    TotalNone(Length);
    TotalNone(FreeBytes);
    TotalNone(HeaderBytes);
    TotalNone(Fragment);
    TotalNone(UserBytes);
    var none: map<Addr, int> := map[];
    assert Sum(none) == 0;
  }

  lemma TotalNone(m: Metric)
    ensures Total(map[], m) == 0
  {
    assert Weights(map[], m) == map[];
  }
}
