/** The layout and the bookkeeping of a cheesymalloc arena, as values. */
module CheesySpec {

  import opened LiteLog2
  import opened Options
  import opened Sums
  import opened Words
  import opened Folding

  const NUM_BINS: nat := 12
  const HEADER_SIZE: nat := 28
  const TAIL_SIZE: nat := 4
  const OVERHEAD: nat := HEADER_SIZE + TAIL_SIZE
  const PAGE: nat := 4096
  const BIG: nat := 2048
  const SANE_ALLOCATION_SIZE: nat := 0x2000_0000

  type Addr = int

  /** What a block's header records: its length with header and tail, and what its owner asked for. */
  datatype Block = Block(length: nat, isFree: bool, userLength: nat)

  datatype Accounting = Accounting(mapped: int, mapFragmented: int, inFreeBlocks: int,
                                   header: int, blockFragmented: int, user: int)

  function RoundUpPages(n: nat): nat {
    (n + (PAGE - 1)) / PAGE * PAGE
  }

  lemma RoundUpPagesBounds(n: nat)
    ensures RoundUpPages(n) % PAGE == 0 && n <= RoundUpPages(n) < n + PAGE
  {}

  /** No smaller number of whole pages would do. */
  lemma RoundUpPagesLeast(n: nat, m: nat)
    requires m % PAGE == 0 && n <= m
    ensures RoundUpPages(n) <= m
  {
    assert m == m / PAGE * PAGE;
    RoundUpPagesBounds(n);
  }

  /** What `malloc` adds to a request, in 32 bits. */
  function WithOverhead(request: nat): nat {
    (request + OVERHEAD) % WORD
  }

  /** The length of the block that serves `overhead` bytes: the largest of its bin, or just enough. */
  function BlockLength(overhead: nat): nat {
    if Bin(overhead) < NUM_BINS then Pow2(Bin(overhead)) - 1 else overhead
  }

  lemma Pow2Values()
    ensures Pow2(5) == 32 && Pow2(6) == 64 && Pow2(11) == 2048 && Pow2(12) == 4096
  {
    assert Pow2(2) == 4 && Pow2(4) == 16;
    assert Pow2(8) == 256;
    assert Pow2(10) == 1024;
  }

  /** A block holds its request, and is found again in the bin it came from. */
  lemma BlockLengthOk(overhead: nat)
    requires OVERHEAD <= overhead < SANE_ALLOCATION_SIZE
    ensures overhead <= BlockLength(overhead) < SANE_ALLOCATION_SIZE
    ensures BitLength(BlockLength(overhead)) == BitLength(overhead) > 5
    ensures BitLength(overhead) < NUM_BINS ==> 63 <= BlockLength(overhead) < 2048
    ensures BitLength(overhead) >= NUM_BINS ==> 2048 <= overhead
  {
    BitLengthBounds(overhead);
    Pow2Values();
    var b := BitLength(overhead);
    if b <= 5 {
      Pow2Monotonic(b, 5);
    }
    if b < NUM_BINS {
      Pow2Monotonic(b, 11);
      Pow2Monotonic(6, b);
      assert Pow2(b) == 2 * Pow2(b - 1);
      BitLengthUnique(Pow2(b) - 1, b);
    } else {
      Pow2Monotonic(11, b - 1);
    }
  }

  /** 32-bit arithmetic finds a block that fits exactly for the requests that do not wrap around. */
  lemma FitsUnlessWrapped(request: nat)
    requires request < WORD
    ensures BlockLength(WithOverhead(request)) >= request + OVERHEAD <==> request + OVERHEAD < WORD
  {
    var n := WithOverhead(request);
    if request + OVERHEAD < WORD {
      assert n == request + OVERHEAD;
      BitLengthBounds(n);
    } else {
      assert n == request + OVERHEAD - WORD < OVERHEAD;
      Pow2Values();
      if n > 0 {
        BitLengthBounds(n);
        if BitLength(n) >= 6 {
          Pow2Monotonic(5, BitLength(n) - 1);
        }
        Pow2Monotonic(BitLength(n), 5);
      }
    }
  }

  /** A mapping for a big block has no room for a second one. */
  lemma BigMappingHoldsOne(length: nat)
    requires length >= 2048
    ensures 2 * length + 1 > RoundUpPages(length)
  {
    if length < PAGE {
      assert RoundUpPages(length) == PAGE by {
        assert (length + (PAGE - 1)) / PAGE == 1;
      }
    } else {
      RoundUpPagesBounds(length);
    }
  }

  /** The bin number and the length tell big blocks from binned ones alike. */
  lemma BigIff(n: nat)
    requires n > 0
    ensures BitLength(n) >= NUM_BINS <==> n >= BIG
  {
    BitLengthBounds(n);
    Pow2Values();
    if BitLength(n) >= NUM_BINS {
      Pow2Monotonic(11, BitLength(n) - 1);
    } else {
      Pow2Monotonic(BitLength(n), 11);
    }
  }

  // ---------------------------------------------------------------- layout

  /** The mapped regions are apart and inside the 32-bit address space. */
  ghost predicate RegionsOk(regions: map<Addr, int>) {
    var ok :=
      && (forall r :: r in regions ==> 0 < r && 0 < regions[r] && r + regions[r] <= WORD)
      && (forall r, s :: r in regions && s in regions && r < s ==> r + regions[r] <= s);
    ok
  }

  /** A new mapping from the host: clear of everything mapped before. */
  ghost predicate FreshRegion(regions: map<Addr, int>, at: Addr, length: int) {
    forall u {:trigger Seen(u)} :: Seen(u) ==>
      && 0 < at && 0 < length && at + length <= WORD
      && (forall r :: r in regions ==> r + regions[r] <= at || at + length <= r)
  }

  ghost predicate Inside(blocks: map<Addr, Block>, home: map<Addr, Addr>, regions: map<Addr, int>) {
    var ok :=
      && blocks.Keys == home.Keys
      && (forall a {:trigger home[a]} :: a in blocks ==>
            && home[a] in regions && home[a] <= a
            && 0 < blocks[a].length && a + blocks[a].length <= home[a] + regions[home[a]]);
    ok
  }

  /** A big block has its mapping to itself, and the mapping is the block's length in whole pages. */
  ghost predicate Alone(blocks: map<Addr, Block>, home: map<Addr, Addr>, regions: map<Addr, int>)
    requires Inside(blocks, home, regions)
  {
    var ok :=
      && (forall a {:trigger home[a]} :: a in blocks && blocks[a].length >= BIG ==>
            home[a] == a && regions[a] == RoundUpPages(blocks[a].length))
      && (forall b {:trigger home[b]} :: b in blocks && home[b] in blocks && blocks[home[b]].length >= BIG ==>
            home[b] == b);
    ok
  }

  /** Where the blocks lie: inside mappings, apart, and the big ones alone. */
  ghost predicate Layout(blocks: map<Addr, Block>, home: map<Addr, Addr>, regions: map<Addr, int>) {
    blocks.Keys == home.Keys &&
    forall u {:trigger Seen(u)} :: Seen(u) ==>
      && RegionsOk(regions)
      && Inside(blocks, home, regions)
      && (forall a, b :: a in blocks && b in blocks && a < b ==> a + blocks[a].length <= b)
      && Alone(blocks, home, regions)
  }

  lemma RegionAdded(blocks: map<Addr, Block>, home: map<Addr, Addr>, regions: map<Addr, int>, at: Addr, length: int)
    requires Layout(blocks, home, regions) && FreshRegion(regions, at, length)
    ensures Layout(blocks, home, regions[at := length])
    ensures at !in regions && forall a :: a in blocks ==> home[a] != at
  {
    assert Seen(0);
    assert at !in regions;
    RegionsGrow(regions, at, length);
    RegionAround(blocks, home, regions, at, length);
  }

  lemma RegionAround(blocks: map<Addr, Block>, home: map<Addr, Addr>, regions: map<Addr, int>, at: Addr, length: int)
    requires Inside(blocks, home, regions) && Alone(blocks, home, regions) && at !in regions
    ensures Inside(blocks, home, regions[at := length]) && Alone(blocks, home, regions[at := length])
  {}

  lemma RegionsGrow(regions: map<Addr, int>, at: Addr, length: int)
    requires RegionsOk(regions) && FreshRegion(regions, at, length)
    ensures RegionsOk(regions[at := length])
  {
    assert Seen(0);
  }

  /** `a` is past everything else carved in the region at `r`. */
  ghost predicate CanCarve(blocks: map<Addr, Block>, home: map<Addr, Addr>, regions: map<Addr, int>,
                           r: Addr, a: Addr, length: nat)
    requires blocks.Keys == home.Keys
  {
    forall u {:trigger Seen(u)} :: Seen(u) ==>
      && r in regions && r <= a && 0 < length && a + length <= r + regions[r]
      && (forall b {:trigger home[b]} :: b in blocks && home[b] == r ==>
            b + blocks[b].length <= a && blocks[b].length < BIG)
      && (length >= BIG ==>
            a == r && regions[r] == RoundUpPages(length) && forall b {:trigger home[b]} :: b in blocks ==> home[b] != r)
  }

  lemma Carve(blocks: map<Addr, Block>, home: map<Addr, Addr>, regions: map<Addr, int>, r: Addr, a: Addr, length: nat)
    requires Layout(blocks, home, regions) && CanCarve(blocks, home, regions, r, a, length)
    ensures a !in blocks
    ensures Layout(blocks[a := Block(length, true, 0)], home[a := r], regions)
  {
    assert Seen(0);
    CarvedApart(blocks, home, regions, r, a, length);
    CarvedInside(blocks, home, regions, r, a, length);
    CarvedAlone(blocks, home, regions, r, a, length);
    var blocks' := blocks[a := Block(length, true, 0)];
    forall b, c | b in blocks' && c in blocks' && b < c
      ensures b + blocks'[b].length <= c
    {
      if b != a && c != a {
        assert b in blocks && c in blocks;
      }
    }
  }

  lemma CarvedInside(blocks: map<Addr, Block>, home: map<Addr, Addr>, regions: map<Addr, int>,
                     r: Addr, a: Addr, length: nat)
    requires Inside(blocks, home, regions) && CanCarve(blocks, home, regions, r, a, length)
    ensures Inside(blocks[a := Block(length, true, 0)], home[a := r], regions)
  {
    assert Seen(0);
  }

  lemma CarvedAlone(blocks: map<Addr, Block>, home: map<Addr, Addr>, regions: map<Addr, int>,
                    r: Addr, a: Addr, length: nat)
    requires Inside(blocks, home, regions) && Alone(blocks, home, regions)
    requires CanCarve(blocks, home, regions, r, a, length) && a !in blocks
    requires Inside(blocks[a := Block(length, true, 0)], home[a := r], regions)
    ensures Alone(blocks[a := Block(length, true, 0)], home[a := r], regions)
  {
    assert Seen(0);
  }

  lemma CarvedApart(blocks: map<Addr, Block>, home: map<Addr, Addr>, regions: map<Addr, int>,
                    r: Addr, a: Addr, length: nat)
    requires Layout(blocks, home, regions) && CanCarve(blocks, home, regions, r, a, length)
    ensures a !in blocks
    ensures forall b :: b in blocks ==> b + blocks[b].length <= a || a + length <= b
  {
    assert Seen(0);
    forall b | b in blocks
      ensures b + blocks[b].length <= a || a + length <= b
      ensures b != a
    {
      if home[b] < r {
        assert home[b] + regions[home[b]] <= r;
      } else if r < home[b] {
        assert r + regions[r] <= home[b];
      }
    }
  }

  /** Cutting up a new mapping: `at` is the next block, `result` the one set aside for the caller. */
  ghost predicate Carving(blocks: map<Addr, Block>, home: map<Addr, Addr>, result: Option<Addr>,
                          memory: Addr, at: Addr, length: nat)
    requires blocks.Keys == home.Keys
  {
    && (result.None? ==> at == memory)
    && (result.Some? ==> result.value in blocks && blocks[result.value] == Block(length, true, 0))
    && forall u {:trigger Seen(u)} :: Seen(u) ==>
      && (forall b {:trigger home[b]} :: b in blocks && home[b] == memory ==>
            b + blocks[b].length <= at && blocks[b].length == length)
      && memory <= at
      && (result.None? ==> forall b {:trigger home[b]} :: b in blocks ==> home[b] != memory)
      && (result.Some? && length >= BIG ==> at == memory + length + 1)
  }

  ghost function Held(result: Option<Addr>): set<Addr> {
    if result.Some? then {result.value} else {}
  }

  ghost function HeldBytes(result: Option<Addr>, length: nat): int {
    if result.Some? then length else 0
  }

  /** Where the `i`-th block of a mapping starts: there is a byte between any two. */
  function Start(memory: Addr, length: nat, i: nat): Addr {
    memory + i * (length + 1)
  }

  /** As many blocks as fit, with a byte between any two: what is left over is less than one more. */
  predicate FitExactly(mapLength: int, length: nat, n: nat) {
    n * (length + 1) - 1 <= mapLength < (n + 1) * (length + 1) - 1
  }

  /** `n` free blocks of this length are new, one after the other, and nothing else is. */
  ghost predicate CarvedInto(blocks0: map<Addr, Block>, blocks: map<Addr, Block>, memory: Addr, length: nat, n: nat) {
    forall u {:trigger Seen(u)} :: Seen(u) ==>
      && (forall a :: a in blocks0 ==> a in blocks && blocks[a] == blocks0[a])
      && (forall i: nat :: i < n ==>
            Start(memory, length, i) !in blocks0 && Start(memory, length, i) in blocks
            && blocks[Start(memory, length, i)] == Block(length, true, 0))
      && (forall a :: a in blocks && a !in blocks0 ==> exists i: nat :: i < n && a == Start(memory, length, i))
  }

  lemma CarvedMore(blocks0: map<Addr, Block>, blocks: map<Addr, Block>, memory: Addr, length: nat, n: nat)
    requires CarvedInto(blocks0, blocks, memory, length, n) && Start(memory, length, n) !in blocks
    ensures CarvedInto(blocks0, blocks[Start(memory, length, n) := Block(length, true, 0)], memory, length, n + 1)
  {
    assert Seen(0);
    var a := Start(memory, length, n);
    var blocks' := blocks[a := Block(length, true, 0)];
    forall i: nat | i < n + 1
      ensures Start(memory, length, i) !in blocks0 && Start(memory, length, i) in blocks'
              && blocks'[Start(memory, length, i)] == Block(length, true, 0)
    {
      if i < n {
        assert Start(memory, length, i) in blocks;
      }
    }
  }

  /** All but the first are on the list of the bin, the last one first. */
  ghost predicate Listed(bins0: seq<seq<Addr>>, bins: seq<seq<Addr>>, bin: nat, memory: Addr, length: nat, n: nat) {
    forall u {:trigger Seen(u)} :: Seen(u) ==>
      if n <= 1 then bins == bins0
      else
        && |bins| == |bins0| > bin && bins == bins0[bin := bins[bin]]
        && |bins[bin]| == n - 1 + |bins0[bin]| && bins[bin][n - 1..] == bins0[bin]
        && forall j: nat :: j < n - 1 ==> bins[bin][j] == Start(memory, length, n - 1 - j)
  }

  lemma ListedMore(bins0: seq<seq<Addr>>, bins: seq<seq<Addr>>, bin: nat, memory: Addr, length: nat, n: nat)
    requires Listed(bins0, bins, bin, memory, length, n) && n > 0 && bin < |bins|
    ensures Listed(bins0, bins[bin := [Start(memory, length, n)] + bins[bin]], bin, memory, length, n + 1)
  {
    assert Seen(0);
  }

  lemma ListedOne(bins: seq<seq<Addr>>, bin: nat, memory: Addr, length: nat)
    ensures Listed(bins, bins, bin, memory, length, 0) && Listed(bins, bins, bin, memory, length, 1)
  {}

  lemma CarvedNone(blocks: map<Addr, Block>, memory: Addr, length: nat)
    ensures CarvedInto(blocks, blocks, memory, length, 0)
  {}

  /** The first block is set aside; each further one heads the list. */
  lemma CarvedNext(blocks0: map<Addr, Block>, blocks: map<Addr, Block>, bins0: seq<seq<Addr>>, bins: seq<seq<Addr>>,
                   bin: nat, memory: Addr, length: nat, n: nat)
    requires CarvedInto(blocks0, blocks, memory, length, n) && Start(memory, length, n) !in blocks
    requires Listed(bins0, bins, bin, memory, length, n) && (n > 0 ==> bin < |bins|)
    ensures var a := Start(memory, length, n);
            && CarvedInto(blocks0, blocks[a := Block(length, true, 0)], memory, length, n + 1)
            && Listed(bins0, if n > 0 then bins[bin := [a] + bins[bin]] else bins, bin, memory, length, n + 1)
  {
    CarvedMore(blocks0, blocks, memory, length, n);
    if n > 0 {
      ListedMore(bins0, bins, bin, memory, length, n);
    } else {
      assert Seen(0);
    }
  }

  lemma CarvedFirst(blocks0: map<Addr, Block>, blocks: map<Addr, Block>, memory: Addr, length: nat, n: nat)
    requires CarvedInto(blocks0, blocks, memory, length, n) && n > 0
    ensures memory !in blocks0 && memory in blocks && blocks[memory] == Block(length, true, 0)
  {
    assert Seen(0);
    assert Start(memory, length, 0) == memory;
  }

  lemma FitsNow(memory: Addr, length: nat, n: nat, end: Addr)
    requires Start(memory, length, n) <= end + 1 && end < Start(memory, length, n) + length
    ensures FitExactly(end - memory, length, n)
  {
    StartNext(memory, length, n);
  }

  /** A mapping of whole pages, no more than called for, cut into as many blocks as fit. */
  ghost predicate MappedFor(length: nat, memory: Addr, bin: nat, n: nat,
                            regions0: map<Addr, int>, blocks0: map<Addr, Block>, bins0: seq<seq<Addr>>,
                            regions: map<Addr, int>, blocks: map<Addr, Block>, bins: seq<seq<Addr>>)
  {
    var ok :=
      && memory in regions && regions == regions0[memory := regions[memory]]
      && regions[memory] % PAGE == 0 && length <= regions[memory] < length + PAGE
      && FitExactly(regions[memory], length, n)
      && CarvedInto(blocks0, blocks, memory, length, n) && Listed(bins0, bins, bin, memory, length, n);
    ok
  }

  lemma StartNext(memory: Addr, length: nat, n: nat)
    ensures Start(memory, length, n + 1) == Start(memory, length, n) + length + 1
  {
    assert (n + 1) * (length + 1) == n * (length + 1) + (length + 1);
  }

  lemma CarvingStart(blocks: map<Addr, Block>, home: map<Addr, Addr>, memory: Addr, length: nat)
    requires blocks.Keys == home.Keys && forall b {:trigger home[b]} :: b in blocks ==> home[b] != memory
    ensures Carving(blocks, home, None, memory, memory, length)
  {
    assert Seen(0);
  }

  /** There is room for the next block, and a big block is the only one of its mapping. */
  lemma CarvingGoesOn(blocks: map<Addr, Block>, home: map<Addr, Addr>, regions: map<Addr, int>,
                      result: Option<Addr>, memory: Addr, at: Addr, length: nat)
    requires blocks.Keys == home.Keys && length > 0
    requires Carving(blocks, home, result, memory, at, length)
    requires memory in regions && regions[memory] == RoundUpPages(length)
    requires at + length <= memory + RoundUpPages(length)
    ensures CanCarve(blocks, home, regions, memory, at, length)
    ensures length >= BIG ==> result.None?
  {
    assert Seen(0);
    if length >= BIG {
      BigMappingHoldsOne(length);
    }
  }

  lemma CarvingStep(blocks: map<Addr, Block>, home: map<Addr, Addr>, result: Option<Addr>,
                    memory: Addr, at: Addr, length: nat)
    requires blocks.Keys == home.Keys && Carving(blocks, home, result, memory, at, length)
    requires length >= BIG ==> result.None?
    ensures Carving(blocks[at := Block(length, true, 0)], home[at := memory],
                    if result.Some? then result else Some(at), memory, at + length + 1, length)
  {
    assert Seen(0);
  }

  /** Handing a block out or taking it back changes only what its header says about its owner. */
  lemma Retag(blocks: map<Addr, Block>, home: map<Addr, Addr>, regions: map<Addr, int>, a: Addr, b: Block)
    requires Layout(blocks, home, regions)
    requires a in blocks && b.length == blocks[a].length
    ensures Layout(blocks[a := b], home, regions)
  {
    assert Seen(0);
    var blocks' := blocks[a := b];
    assert blocks'.Keys == blocks.Keys;
    assert forall c :: c in blocks' ==> blocks'[c].length == blocks[c].length;
  }

  /** A big block leaves together with its mapping. */
  lemma Unmap(blocks: map<Addr, Block>, home: map<Addr, Addr>, regions: map<Addr, int>, a: Addr)
    requires Layout(blocks, home, regions)
    requires a in blocks && blocks[a].length >= BIG
    ensures a in regions && regions[a] == RoundUpPages(blocks[a].length)
    ensures Layout(blocks - {a}, home - {a}, regions - {a})
  {
    assert Seen(0);
    assert home[a] == a;
    UnmappedInside(blocks, home, regions, a);
    UnmappedAlone(blocks, home, regions, a);
  }

  lemma UnmappedInside(blocks: map<Addr, Block>, home: map<Addr, Addr>, regions: map<Addr, int>, a: Addr)
    requires Inside(blocks, home, regions) && Alone(blocks, home, regions)
    requires a in blocks && blocks[a].length >= BIG && home[a] == a
    ensures Inside(blocks - {a}, home - {a}, regions - {a})
  {}

  lemma UnmappedAlone(blocks: map<Addr, Block>, home: map<Addr, Addr>, regions: map<Addr, int>, a: Addr)
    requires Inside(blocks, home, regions) && Alone(blocks, home, regions)
    requires a in blocks && blocks[a].length >= BIG && home[a] == a
    requires Inside(blocks - {a}, home - {a}, regions - {a})
    ensures Alone(blocks - {a}, home - {a}, regions - {a})
  {}

  // ---------------------------------------------------------------- sizes

  ghost predicate Sized(b: Block) {
    forall u {:trigger Seen(u)} :: Seen(u) ==>
      && OVERHEAD <= b.length < SANE_ALLOCATION_SIZE
      && (BitLength(b.length) < NUM_BINS ==> b.length == Pow2(BitLength(b.length)) - 1)
      && (if b.isFree then b.userLength == 0 else b.length == BlockLength(b.userLength + OVERHEAD))
  }

  ghost predicate AllSized(blocks: map<Addr, Block>) {
    forall u {:trigger Seen(u)} :: Seen(u) ==> forall a :: a in blocks ==> Sized(blocks[a])
  }

  lemma SizedNew(overhead: nat)
    requires OVERHEAD <= overhead < SANE_ALLOCATION_SIZE
    ensures BlockLength(overhead) > 0 && Sized(Block(BlockLength(overhead), true, 0))
    ensures BitLength(BlockLength(overhead)) == BitLength(overhead)
  {
    BlockLengthOk(overhead);
  }

  lemma AllSizedPut(blocks: map<Addr, Block>, a: Addr, b: Block)
    requires AllSized(blocks) && Sized(b)
    ensures AllSized(blocks[a := b])
  {
    assert Seen(0);
  }

  lemma AllSizedTake(blocks: map<Addr, Block>, a: Addr)
    requires AllSized(blocks)
    ensures AllSized(blocks - {a})
  {
    assert Seen(0);
  }

  lemma SizedGiven(blocks: map<Addr, Block>, a: Addr, request: nat)
    requires AllSized(blocks) && a in blocks && blocks[a].length == BlockLength(request + OVERHEAD)
    ensures Sized(Block(blocks[a].length, false, request))
  {
    assert Seen(0);
  }

  /** What `free` reads off a block in use: its bin is the one it belongs to. */
  lemma SizedFreed(blocks: map<Addr, Block>, a: Addr)
    requires AllSized(blocks) && a in blocks
    ensures 0 < blocks[a].length < SANE_ALLOCATION_SIZE
    ensures Sized(Block(blocks[a].length, true, 0))
    ensures var bin := BitLength(blocks[a].length); bin < NUM_BINS ==> blocks[a].length == Pow2(bin) - 1
  {
    assert Seen(0);
  }

  // ---------------------------------------------------------------- free lists

  /** Each bin lists, once each, the free blocks of its length; `held` are free blocks in a caller's hands. */
  ghost predicate Lists(bins: seq<seq<Addr>>, blocks: map<Addr, Block>, held: set<Addr>) {
    |bins| == NUM_BINS &&
    forall u {:trigger Seen(u)} :: Seen(u) ==>
      && (forall b, i {:trigger bins[b][i]} :: 0 <= b < NUM_BINS && 0 <= i < |bins[b]| ==>
            && bins[b][i] in blocks && bins[b][i] !in held
            && blocks[bins[b][i]].isFree && blocks[bins[b][i]].length == Pow2(b) - 1)
      && (forall b, i, j {:trigger bins[b][i], bins[b][j]} ::
            0 <= b < NUM_BINS && 0 <= i < j < |bins[b]| ==> bins[b][i] != bins[b][j])
      && (forall a :: a in blocks && blocks[a].isFree && a !in held ==>
            BitLength(blocks[a].length) < NUM_BINS && a in bins[BitLength(blocks[a].length)])
  }

  lemma ListsPush(bins: seq<seq<Addr>>, blocks: map<Addr, Block>, held: set<Addr>, bin: nat, a: Addr)
    requires bin < NUM_BINS && a in held && a in blocks
    requires Lists(bins, blocks, held)
    requires blocks[a].isFree && blocks[a].length == Pow2(bin) - 1 && BitLength(blocks[a].length) == bin
    ensures Lists(bins[bin := [a] + bins[bin]], blocks, held - {a})
  {
    assert Seen(0);
    var bins' := bins[bin := [a] + bins[bin]];
    ListsPushOnce(bins, blocks, held, bin, a);
    forall b, i | 0 <= b < NUM_BINS && 0 <= i < |bins'[b]|
      ensures && bins'[b][i] in blocks && bins'[b][i] !in held - {a}
              && blocks[bins'[b][i]].isFree && blocks[bins'[b][i]].length == Pow2(b) - 1
    {
      if b == bin && i > 0 {
        assert bins'[b][i] == bins[b][i - 1];
      } else if b != bin {
        assert bins'[b][i] == bins[b][i];
      }
    }
    ListsPushAll(bins, blocks, held, bin, a);
  }

  lemma ListsPushOnce(bins: seq<seq<Addr>>, blocks: map<Addr, Block>, held: set<Addr>, bin: nat, a: Addr)
    requires bin < NUM_BINS && a in held && Lists(bins, blocks, held)
    ensures var bins' := bins[bin := [a] + bins[bin]];
      forall b, i, j {:trigger bins'[b][i], bins'[b][j]} ::
        0 <= b < NUM_BINS && 0 <= i < j < |bins'[b]| ==> bins'[b][i] != bins'[b][j]
  {
    assert Seen(0);
    var bins' := bins[bin := [a] + bins[bin]];
    forall b, i, j | 0 <= b < NUM_BINS && 0 <= i < j < |bins'[b]|
      ensures bins'[b][i] != bins'[b][j]
    {
      if b == bin {
        assert bins'[b][j] == bins[b][j - 1];
        assert i > 0 ==> bins'[b][i] == bins[b][i - 1];
      } else {
        assert bins'[b][i] == bins[b][i] && bins'[b][j] == bins[b][j];
      }
    }
  }

  lemma ListsPushAll(bins: seq<seq<Addr>>, blocks: map<Addr, Block>, held: set<Addr>, bin: nat, a: Addr)
    requires bin < NUM_BINS && a in blocks && Lists(bins, blocks, held) && BitLength(blocks[a].length) == bin
    ensures var bins' := bins[bin := [a] + bins[bin]];
      forall c :: c in blocks && blocks[c].isFree && c !in held - {a} ==>
        BitLength(blocks[c].length) < NUM_BINS && c in bins'[BitLength(blocks[c].length)]
  {
    assert Seen(0);
    var bins' := bins[bin := [a] + bins[bin]];
    forall c | c in blocks && blocks[c].isFree && c !in held - {a}
      ensures BitLength(blocks[c].length) < NUM_BINS && c in bins'[BitLength(blocks[c].length)]
    {
      if c != a {
        var b := BitLength(blocks[c].length);
        assert c in bins[b];
        if b == bin {
          var i :| 0 <= i < |bins[b]| && bins[b][i] == c;
          assert bins'[b][i + 1] == c;
        }
      } else {
        assert bins'[bin][0] == a;
      }
    }
  }

  lemma ListsPop(bins: seq<seq<Addr>>, blocks: map<Addr, Block>, bin: nat)
    requires bin < NUM_BINS && |bins| == NUM_BINS && bins[bin] != []
    requires Lists(bins, blocks, {})
    ensures bins[bin][0] in blocks && blocks[bins[bin][0]].isFree && blocks[bins[bin][0]].length == Pow2(bin) - 1
    ensures Lists(bins[bin := bins[bin][1..]], blocks, {bins[bin][0]})
  {
    assert Seen(0);
    var a := bins[bin][0];
    var bins' := bins[bin := bins[bin][1..]];
    forall b, i | 0 <= b < NUM_BINS && 0 <= i < |bins'[b]|
      ensures && bins'[b][i] in blocks && bins'[b][i] != a
              && blocks[bins'[b][i]].isFree && blocks[bins'[b][i]].length == Pow2(b) - 1
    {
      if b == bin {
        assert bins'[b][i] == bins[b][i + 1];
      } else {
        assert bins'[b][i] == bins[b][i];
        Pow2Injective(b, bin);
      }
    }
    ListsPopRest(bins, blocks, bin);
  }

  lemma ListsPopRest(bins: seq<seq<Addr>>, blocks: map<Addr, Block>, bin: nat)
    requires bin < NUM_BINS && |bins| == NUM_BINS && bins[bin] != []
    requires Lists(bins, blocks, {})
    ensures var bins' := bins[bin := bins[bin][1..]];
      && (forall b, i, j {:trigger bins'[b][i], bins'[b][j]} ::
            0 <= b < NUM_BINS && 0 <= i < j < |bins'[b]| ==> bins'[b][i] != bins'[b][j])
      && (forall c :: c in blocks && blocks[c].isFree && c != bins[bin][0] ==>
            BitLength(blocks[c].length) < NUM_BINS && c in bins'[BitLength(blocks[c].length)])
  {
    assert Seen(0);
    var a := bins[bin][0];
    var bins' := bins[bin := bins[bin][1..]];
    forall b, i, j | 0 <= b < NUM_BINS && 0 <= i < j < |bins'[b]|
      ensures bins'[b][i] != bins'[b][j]
    {
      if b == bin {
        assert bins'[b][i] == bins[b][i + 1] && bins'[b][j] == bins[b][j + 1];
      } else {
        assert bins'[b][i] == bins[b][i] && bins'[b][j] == bins[b][j];
      }
    }
    forall c | c in blocks && blocks[c].isFree && c != a
      ensures BitLength(blocks[c].length) < NUM_BINS && c in bins'[BitLength(blocks[c].length)]
    {
      var b := BitLength(blocks[c].length);
      assert c in bins[b];
      if b == bin {
        var i :| 0 <= i < |bins[b]| && bins[b][i] == c;
        assert bins'[b][i - 1] == c;
      }
    }
  }

  lemma Pow2Injective(a: nat, b: nat)
    requires a != b
    ensures Pow2(a) != Pow2(b)
  {
    if a < b {
      Pow2Monotonic(a, b);
    } else {
      Pow2Monotonic(b, a);
    }
  }

  /** Blocks outside the free lists may change owner, appear or go. */
  /** A header written where there was none, for a block that is on no list yet. */
  lemma ListsCarved(bins: seq<seq<Addr>>, blocks: map<Addr, Block>, held: set<Addr>, a: Addr, b: Block)
    requires Lists(bins, blocks, held) && a !in blocks
    ensures Lists(bins, blocks[a := b], held + {a})
  {
    ListsKept(bins, blocks, held, blocks[a := b], held + {a});
  }

  lemma ListsDropped(bins: seq<seq<Addr>>, blocks: map<Addr, Block>, a: Addr)
    requires Lists(bins, blocks, {a})
    ensures Lists(bins, blocks - {a}, {})
  {
    ListsKept(bins, blocks, {a}, blocks - {a}, {});
  }

  lemma ListsKept(bins: seq<seq<Addr>>, blocks: map<Addr, Block>, held: set<Addr>,
                  blocks': map<Addr, Block>, held': set<Addr>)
    requires Lists(bins, blocks, held)
    requires forall a :: a in blocks && blocks[a].isFree && a !in held ==>
                           a in blocks' && blocks'[a] == blocks[a] && a !in held'
    requires forall a :: a in blocks' && blocks'[a].isFree && a !in held' ==>
                           a in blocks && blocks[a].isFree && a !in held
    ensures Lists(bins, blocks', held')
  {
    assert Seen(0);
    forall b, i | 0 <= b < NUM_BINS && 0 <= i < |bins[b]|
      ensures && bins[b][i] in blocks' && bins[b][i] !in held'
              && blocks'[bins[b][i]] == blocks[bins[b][i]]
    {
      var a := bins[b][i];
      assert a in blocks && blocks[a].isFree && a !in held;
    }
  }

  // ---------------------------------------------------------------- accounting

  datatype Metric = Length | FreeBytes | HeaderBytes | Fragment | UserBytes

  /** A block's share of each counter. */
  ghost function Weigh(b: Block, m: Metric): int {
    match m
    case Length => b.length
    case FreeBytes => if b.isFree then b.length else 0
    case HeaderBytes => if b.isFree then 0 else OVERHEAD
    case Fragment => if b.isFree then 0 else b.length - OVERHEAD - b.userLength
    case UserBytes => if b.isFree then 0 else b.userLength
  }

  ghost function Weights(blocks: map<Addr, Block>, m: Metric): map<Addr, int> {
    map a | a in blocks :: Weigh(blocks[a], m)
  }

  ghost function Total(blocks: map<Addr, Block>, m: Metric): int {
    Sum(Weights(blocks, m))
  }

  lemma TotalPut(blocks: map<Addr, Block>, a: Addr, b: Block, m: Metric)
    ensures Total(blocks[a := b], m)
            == Total(blocks, m) + Weigh(b, m) - (if a in blocks then Weigh(blocks[a], m) else 0)
  {
    assert Weights(blocks[a := b], m) == Weights(blocks, m)[a := Weigh(b, m)];
    SumPut(Weights(blocks, m), a, Weigh(b, m));
  }

  lemma TotalTake(blocks: map<Addr, Block>, a: Addr, m: Metric)
    requires a in blocks
    ensures Total(blocks - {a}, m) == Total(blocks, m) - Weigh(blocks[a], m)
  {
    assert Weights(blocks - {a}, m) == Weights(blocks, m) - {a};
    SumTake(Weights(blocks, m), a);
  }

  /** Every byte of a block is free, header or tail, unused, or its owner's. */
  lemma {:induction false} TotalSplits(blocks: map<Addr, Block>)
    ensures Total(blocks, Length) == Total(blocks, FreeBytes) + Total(blocks, HeaderBytes)
                                     + Total(blocks, Fragment) + Total(blocks, UserBytes)
    decreases |blocks|
  {
    if blocks.Keys == {} {
      assert forall m :: Weights(blocks, m) == map[];
    } else {
      var a := Pick(blocks.Keys);
      TotalTake(blocks, a, Length);
      TotalTake(blocks, a, FreeBytes);
      TotalTake(blocks, a, HeaderBytes);
      TotalTake(blocks, a, Fragment);
      TotalTake(blocks, a, UserBytes);
      TotalSplits(blocks - {a});
    }
  }

  /** The block counters say what they are named for; `held` bytes of free blocks are in a caller's hands. */
  ghost predicate Counted(acct: Accounting, blocks: map<Addr, Block>, held: int) {
    forall u {:trigger Seen(u)} :: Seen(u) ==>
      && acct.inFreeBlocks + held == Total(blocks, FreeBytes)
      && acct.header == Total(blocks, HeaderBytes)
      && acct.blockFragmented == Total(blocks, Fragment)
      && acct.user == Total(blocks, UserBytes)
  }

  /** A counter's change when a block's header changes, or a header is written where there was none. */
  ghost function Change(blocks: map<Addr, Block>, a: Addr, b: Block, m: Metric): int {
    Weigh(b, m) - if a in blocks then Weigh(blocks[a], m) else 0
  }

  lemma CountedPut(acct: Accounting, blocks: map<Addr, Block>, held: int, a: Addr, b: Block,
                   acct': Accounting, held': int)
    requires Counted(acct, blocks, held)
    requires acct'.inFreeBlocks + held' == acct.inFreeBlocks + held + Change(blocks, a, b, FreeBytes)
    requires acct'.header == acct.header + Change(blocks, a, b, HeaderBytes)
    requires acct'.blockFragmented == acct.blockFragmented + Change(blocks, a, b, Fragment)
    requires acct'.user == acct.user + Change(blocks, a, b, UserBytes)
    ensures Counted(acct', blocks[a := b], held')
    ensures Total(blocks[a := b], Length) == Total(blocks, Length) + Change(blocks, a, b, Length)
  {
    assert Seen(0);
    TotalPut(blocks, a, b, Length);
    TotalPut(blocks, a, b, FreeBytes);
    TotalPut(blocks, a, b, HeaderBytes);
    TotalPut(blocks, a, b, Fragment);
    TotalPut(blocks, a, b, UserBytes);
  }

  lemma CountedCarved(acct: Accounting, blocks: map<Addr, Block>, held: int, a: Addr, length: nat)
    requires Counted(acct, blocks, held) && a !in blocks
    ensures Counted(acct, blocks[a := Block(length, true, 0)], held + length)
    ensures Total(blocks[a := Block(length, true, 0)], Length) == Total(blocks, Length) + length
  {
    CountedPut(acct, blocks, held, a, Block(length, true, 0), acct, held + length);
  }

  lemma CountedTake(acct: Accounting, blocks: map<Addr, Block>, held: int, a: Addr)
    requires Counted(acct, blocks, held) && a in blocks && blocks[a].isFree
    ensures Counted(acct, blocks - {a}, held - blocks[a].length)
    ensures Total(blocks - {a}, Length) == Total(blocks, Length) - blocks[a].length
  {
    assert Seen(0);
    TotalTake(blocks, a, Length);
    TotalTake(blocks, a, FreeBytes);
    TotalTake(blocks, a, HeaderBytes);
    TotalTake(blocks, a, Fragment);
    TotalTake(blocks, a, UserBytes);
  }

  /** The mapping counters: all that is mapped, and what of it is in no block. */
  ghost predicate Mapped(acct: Accounting, blocks: map<Addr, Block>, regions: map<Addr, int>) {
    forall u {:trigger Seen(u)} :: Seen(u) ==>
      && acct.mapped == Sum(regions)
      && acct.mapped == acct.mapFragmented + Total(blocks, Length)
  }

  lemma MappedMore(acct: Accounting, blocks: map<Addr, Block>, regions: map<Addr, int>, at: Addr, length: int)
    requires Mapped(acct, blocks, regions) && at !in regions
    ensures acct.mapped + length == Sum(regions[at := length]) == acct.mapFragmented + Total(blocks, Length) + length
  {
    assert Seen(0);
    SumPut(regions, at, length);
  }

  lemma MappedAll(acct: Accounting, blocks: map<Addr, Block>, regions: map<Addr, int>)
    requires acct.mapped == Sum(regions) == acct.mapFragmented + Total(blocks, Length)
    ensures Mapped(acct, blocks, regions)
  {}

  lemma CountedSame(acct: Accounting, blocks: map<Addr, Block>, held: int, acct': Accounting)
    requires Counted(acct, blocks, held)
    requires acct' == acct.(mapped := acct'.mapped, mapFragmented := acct'.mapFragmented)
    ensures Counted(acct', blocks, held)
  {}

  lemma MappedSame(acct: Accounting, blocks: map<Addr, Block>, regions: map<Addr, int>,
                   acct': Accounting, blocks': map<Addr, Block>)
    requires Mapped(acct, blocks, regions)
    requires acct'.mapped == acct.mapped && acct'.mapFragmented == acct.mapFragmented
    requires Total(blocks', Length) == Total(blocks, Length)
    ensures Mapped(acct', blocks', regions)
  {}

  lemma MappedLess(acct: Accounting, blocks: map<Addr, Block>, regions: map<Addr, int>,
                   acct': Accounting, blocks': map<Addr, Block>, a: Addr)
    requires Mapped(acct, blocks, regions) && a in regions && a in blocks
    requires acct'.mapped == acct.mapped - regions[a]
    requires acct'.mapFragmented == acct.mapFragmented - (regions[a] - blocks[a].length)
    requires Total(blocks', Length) == Total(blocks, Length) - blocks[a].length
    ensures Mapped(acct', blocks', regions - {a})
  {
    SumTake(regions, a);
  }

  lemma CountedHeld(acct: Accounting, blocks: map<Addr, Block>, held: int, n: int)
    requires Counted(acct, blocks, held)
    ensures Counted(acct.(inFreeBlocks := acct.inFreeBlocks - n), blocks, held + n)
  {}

  function Usage(acct: Accounting): int {
    acct.mapFragmented + acct.inFreeBlocks + acct.header + acct.blockFragmented + acct.user
  }

  /** The counters partition the mapped bytes. */
  lemma Balanced(acct: Accounting, blocks: map<Addr, Block>, regions: map<Addr, int>)
    requires Counted(acct, blocks, 0) && Mapped(acct, blocks, regions)
    ensures Usage(acct) == acct.mapped
    ensures acct.mapFragmented + acct.inFreeBlocks + acct.header + acct.blockFragmented + acct.user == Sum(regions)
  {
    assert Seen(0);
    TotalSplits(blocks);
  }

  lemma TotalNonnegative(blocks: map<Addr, Block>, m: Metric)
    requires AllSized(blocks)
    ensures Total(blocks, m) >= 0
  {
    assert Seen(0);
    forall a | a in blocks
      ensures Weigh(blocks[a], m) >= 0
    {
      assert Sized(blocks[a]);
      if !blocks[a].isFree {
        UserFits(blocks[a]);
      }
    }
    SumNonnegative(Weights(blocks, m));
  }

  /** Every counter fits its 32 bits, so none of them ever wraps around. */
  lemma CountersFit(acct: Accounting, blocks: map<Addr, Block>, home: map<Addr, Addr>, regions: map<Addr, int>)
    requires Layout(blocks, home, regions) && AllSized(blocks)
    requires Counted(acct, blocks, 0) && Mapped(acct, blocks, regions)
    ensures 0 <= acct.mapped < WORD
    ensures 0 <= acct.inFreeBlocks <= acct.mapped && 0 <= acct.header <= acct.mapped
    ensures 0 <= acct.blockFragmented <= acct.mapped && 0 <= acct.user <= acct.mapped
    ensures 0 <= acct.mapFragmented <= acct.mapped
  {
    assert Seen(0);
    SumWithin(regions, 1, WORD);
    SumHoused(Weights(blocks, Length), home, regions);
    Balanced(acct, blocks, regions);
    TotalNonnegative(blocks, FreeBytes);
    TotalNonnegative(blocks, HeaderBytes);
    TotalNonnegative(blocks, Fragment);
    TotalNonnegative(blocks, UserBytes);
  }

  /** What is handed out lies between the header and the tail. */
  lemma UserFits(b: Block)
    requires Sized(b) && !b.isFree
    ensures b.userLength + OVERHEAD <= b.length
  {
    assert Seen(0);
    var n := b.userLength + OVERHEAD;
    BitLengthBounds(n);
  }

  // ---------------------------------------------------------------- the clients' view

  /** What clients own: the blocks handed out and not yet freed, with the lengths asked for. */
  ghost function Live(blocks: map<Addr, Block>): map<Addr, nat> {
    map a | a in blocks && !blocks[a].isFree :: blocks[a].userLength
  }

  lemma LivePut(blocks: map<Addr, Block>, a: Addr, b: Block)
    requires a in blocks ==> blocks[a].isFree
    ensures Live(blocks[a := b]) == if b.isFree then Live(blocks) else Live(blocks)[a := b.userLength]
    ensures a !in Live(blocks)
  {}

  lemma LiveTake(blocks: map<Addr, Block>, a: Addr, b: Block)
    requires b.isFree
    ensures Live(blocks[a := b]) == Live(blocks) - {a}
    ensures Live(blocks - {a}) == Live(blocks) - {a}
  {}

  /** A client's bytes start after the header. */
  function UserAddress(a: Addr): Addr {
    a + HEADER_SIZE
  }

  /** No two allocations share a byte: between them there is always a tail and a header. */
  lemma LiveApart(blocks: map<Addr, Block>, home: map<Addr, Addr>, regions: map<Addr, int>, a: Addr, b: Addr)
    requires Layout(blocks, home, regions) && AllSized(blocks)
    requires a in Live(blocks) && b in Live(blocks) && a < b
    ensures UserAddress(a) + Live(blocks)[a] + OVERHEAD <= UserAddress(b)
  {
    assert Seen(0);
    UserFits(blocks[a]);
  }

  /** An allocation lies inside one mapping, with room for its header and its tail. */
  lemma LiveMapped(blocks: map<Addr, Block>, home: map<Addr, Addr>, regions: map<Addr, int>, a: Addr)
    requires Layout(blocks, home, regions) && AllSized(blocks) && a in Live(blocks)
    ensures exists r :: r in regions && r + HEADER_SIZE <= UserAddress(a)
                        && UserAddress(a) + Live(blocks)[a] + TAIL_SIZE <= r + regions[r]
  {
    assert Seen(0);
    UserFits(blocks[a]);
    assert home[a] in regions;
  }
}
