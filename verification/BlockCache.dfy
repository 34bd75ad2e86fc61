/** The blocks of file data, kept under the hashes they are expected to have. */
module BlockCaches {

  import opened MerkleTrees
  import opened Options
  import opened Words
  import opened Folding

  /** What has arrived of a block, from its start on; `valid` once it is whole and its hash is right. */
  datatype Block = Block(data: seq<Byte>, valid: bool)

  type BlockHash<Hash> = seq<Byte> -> Hash

  ghost predicate BlockOk<Hash>(hash: BlockHash<Hash>, name: Hash, b: Block) {
    && |b.data| <= BLOCK_SIZE && (b.valid <==> |b.data| == BLOCK_SIZE)
    && (b.valid ==> hash(b.data) == name)
  }

  ghost predicate BlocksOk<Hash>(hash: BlockHash<Hash>, blocks: map<Hash, Block>) {
    var ok := forall n :: n in blocks ==> BlockOk(hash, n, blocks[n]);
    ok
  }

  /** Blocks only grow at their ends. */
  ghost predicate BlocksGrow<Hash>(old': map<Hash, Block>, new': map<Hash, Block>) {
    var ok := forall n :: n in old' ==> n in new' && old'[n].data <= new'[n].data;
    ok
  }

  /** `n` bytes of the payload from `offset` on; trailing zeros need not be sent. */
  function Sent(payload: seq<Byte>, offset: nat, n: nat): (bytes: seq<Byte>)
    requires offset <= |payload|
    ensures |bytes| == n
  {
    if offset + n <= |payload| then payload[offset..offset + n]
    else payload[offset..] + Zeros(n - (|payload| - offset))
  }

  /** `_validate`: a whole block must have the hash it is named by. */
  function Appended<Hash(==)>(hash: BlockHash<Hash>, name: Hash, b: Block, bytes: seq<Byte>): (r: Option<Block>)
    requires |b.data| + |bytes| <= BLOCK_SIZE
    ensures r.Some? ==> BlockOk(hash, name, r.value) && r.value.data == b.data + bytes
    ensures r.None? <==> |b.data| + |bytes| == BLOCK_SIZE && hash(b.data + bytes) != name
  {
    var data := b.data + bytes;
    if |data| < BLOCK_SIZE then Some(Block(data, false))
    else if hash(data) == name then Some(Block(data, true))
    else None
  }

  /** `receive_data`: what was there already is passed over, and what comes next is appended. */
  function Received<Hash(==)>(hash: BlockHash<Hash>, name: Hash, b: Block, start: nat, bytes: seq<Byte>)
    : (r: Option<(Block, bool)>)
    requires BlockOk(hash, name, b) && start + |bytes| <= BLOCK_SIZE && |bytes| > 0
    ensures r.Some? ==>
      && BlockOk(hash, name, r.value.0) && start + |bytes| <= |r.value.0.data|
      && r.value.0.data == (if r.value.1 then b.data + bytes else b.data)
  {
    if start < |b.data| then
      if start + |bytes| <= |b.data| then Some((b, false)) else None
    else if start != |b.data| then None
    else
      match Appended(hash, name, b, bytes)
      case None => None
      case Some(b') => Some((b', true))
  }

  /** `complete_with_zeros`, for the end of the file: the rest of the block is zeros. */
  function Completed<Hash(==)>(hash: BlockHash<Hash>, name: Hash, b: Block): (r: Option<Block>)
    requires BlockOk(hash, name, b)
    ensures r.Some? ==> BlockOk(hash, name, r.value) && b.data <= r.value.data
  {
    if |b.data| < BLOCK_SIZE then Appended(hash, name, b, Zeros(BLOCK_SIZE - |b.data|)) else Some(b)
  }

  /** The data of a block once a piece is taken, and the rest is zeros if it is the last one. */
  function After(have: seq<Byte>, start: nat, bytes: seq<Byte>, last: bool): seq<Byte> {
    var grown := if start < |have| then have else have + bytes;
    if last && |grown| < BLOCK_SIZE then grown + Zeros(BLOCK_SIZE - |grown|) else grown
  }

  /** A piece fits: it is there already or comes next, and if it makes the block whole the hash is right. */
  ghost predicate Fits<Hash>(hash: BlockHash<Hash>, name: Hash, have: seq<Byte>, start: nat, bytes: seq<Byte>,
                             last: bool) {
    forall u {:trigger Seen(u)} :: Seen(u) ==>
      && (start + |bytes| <= |have| || start == |have|)
      && (|have| < |After(have, start, bytes, last)| == BLOCK_SIZE ==> hash(After(have, start, bytes, last)) == name)
  }

  /** Both in one: what a block becomes by a piece, and whether the piece was new; none where the code stops. */
  function Taking<Hash(==)>(hash: BlockHash<Hash>, name: Hash, b: Block, start: nat, bytes: seq<Byte>, last: bool)
    : (r: Option<(Block, bool)>)
    requires BlockOk(hash, name, b) && start + |bytes| <= BLOCK_SIZE && |bytes| > 0
  {
    match Received(hash, name, b, start, bytes)
    case None => None
    case Some((b', changed)) =>
      if !last then Some((b', changed))
      else
        match Completed(hash, name, b')
        case None => None
        case Some(b'') => Some((b'', changed))
  }

  lemma TakingExact<Hash>(hash: BlockHash<Hash>, name: Hash, b: Block, start: nat, bytes: seq<Byte>, last: bool)
    requires BlockOk(hash, name, b) && start + |bytes| <= BLOCK_SIZE && |bytes| > 0
    ensures var r := Taking(hash, name, b, start, bytes, last);
      && (r.Some? <==> Fits(hash, name, b.data, start, bytes, last))
      && (r.Some? ==> BlockOk(hash, name, r.value.0) && start + |bytes| <= |r.value.0.data|)
      && (r.Some? ==> r.value.0.data == After(b.data, start, bytes, last) && b.data <= r.value.0.data)
      && (r.Some? && r.value.1 ==> |b.data| < |r.value.0.data|)
  {
    assert Seen(0);
  }

  lemma BlocksPut<Hash>(hash: BlockHash<Hash>, blocks: map<Hash, Block>, name: Hash, b: Block)
    requires BlocksOk(hash, blocks) && BlockOk(hash, name, b)
    requires name in blocks ==> blocks[name].data <= b.data
    ensures BlocksOk(hash, blocks[name := b]) && BlocksGrow(blocks, blocks[name := b])
  {}

  /** The bytes of a piece lie one after the other in its block. */
  lemma PieceInBlock(next: nat, end: nat)
    requires next < end <= (next / BLOCK_SIZE + 1) * BLOCK_SIZE
    ensures next % BLOCK_SIZE + (end - next) <= BLOCK_SIZE
  {}

  /** Growing in steps is growing, and comes back to where it began only by never having left. */
  lemma GrowTrans<Hash>(hash: BlockHash<Hash>, a: map<Hash, Block>, b: map<Hash, Block>, c: map<Hash, Block>)
    requires BlocksGrow(a, b) && BlocksGrow(b, c) && BlocksOk(hash, a) && BlocksOk(hash, b)
    ensures BlocksGrow(a, c)
    ensures c == a ==> b == a
  {
    if c == a {
      assert b.Keys == a.Keys;
      forall n | n in a
        ensures b[n] == a[n]
      {
        assert a[n].data <= b[n].data && b[n].data <= a[n].data;
      }
    }
  }

  /** A byte of the file has arrived: it is in the block that its leaf names. */
  ghost predicate Arrived<Hash>(t: Tree<Hash>, blocks: map<Hash, Block>, depth: nat, x: nat) {
    var leaf := LeafLocation(depth, x / BLOCK_SIZE);
    Known(t, leaf) && t[leaf].hash in blocks && x % BLOCK_SIZE < |blocks[t[leaf].hash].data|
  }

  ghost predicate AllArrived<Hash>(t: Tree<Hash>, blocks: map<Hash, Block>, depth: nat, lo: nat, hi: nat) {
    var ok := forall x: nat :: lo <= x < hi ==> Arrived(t, blocks, depth, x);
    ok
  }

  lemma ArrivedOn<Hash>(t: Tree<Hash>, blocks: map<Hash, Block>, t': Tree<Hash>, blocks': map<Hash, Block>,
                        depth: nat, lo: nat, hi: nat)
    requires AllArrived(t, blocks, depth, lo, hi) && Keeps(t, t') && BlocksGrow(blocks, blocks')
    ensures AllArrived(t', blocks', depth, lo, hi)
  {
    forall x: nat | lo <= x < hi
      ensures Arrived(t', blocks', depth, x)
    {
      assert Arrived(t, blocks, depth, x);
      assert Known(t, LeafLocation(depth, x / BLOCK_SIZE));
    }
  }

  lemma ArrivedMore<Hash>(t: Tree<Hash>, blocks: map<Hash, Block>, depth: nat, lo: nat, mid: nat, hi: nat)
    requires AllArrived(t, blocks, depth, lo, mid) && AllArrived(t, blocks, depth, mid, hi)
    ensures AllArrived(t, blocks, depth, lo, hi)
  {}

  lemma NothingToArrive<Hash>(t: Tree<Hash>, blocks: map<Hash, Block>, depth: nat, lo: nat, hi: nat)
    ensures hi <= lo ==> AllArrived(t, blocks, depth, lo, hi)
  {}

  /** A piece that its block holds to its end has arrived. */
  lemma PieceArrived<Hash>(t: Tree<Hash>, blocks: map<Hash, Block>, depth: nat, next: nat, end: nat)
    requires next < end <= (next / BLOCK_SIZE + 1) * BLOCK_SIZE
    requires var leaf := LeafLocation(depth, next / BLOCK_SIZE);
      Known(t, leaf) && t[leaf].hash in blocks && next % BLOCK_SIZE + (end - next) <= |blocks[t[leaf].hash].data|
    ensures AllArrived(t, blocks, depth, next, end) && Arrived(t, blocks, depth, next)
  {
    forall x: nat | next <= x < end
      ensures Arrived(t, blocks, depth, x)
    {
      assert x / BLOCK_SIZE == next / BLOCK_SIZE;
    }
  }

  // ---------------------------------------------------------------- which bytes

  ghost function HaveIn<Hash>(blocks: map<Hash, Block>, n: Hash): seq<Byte> {
    if n in blocks then blocks[n].data else []
  }

  /** A byte of the file is byte `i` of the block named `n`. */
  ghost predicate InCell<Hash>(t: Tree<Hash>, depth: nat, x: nat, n: Hash, i: nat) {
    var leaf := LeafLocation(depth, x / BLOCK_SIZE);
    Known(t, leaf) && t[leaf].hash == n && x % BLOCK_SIZE == i
  }

  ghost function ByteAt<Hash>(t: Tree<Hash>, blocks: map<Hash, Block>, depth: nat, x: nat): Byte
    requires Arrived(t, blocks, depth, x)
  {
    blocks[t[LeafLocation(depth, x / BLOCK_SIZE)].hash].data[x % BLOCK_SIZE]
  }

  /** Two bytes of the file are one byte of one block, as leaves with equal hashes allow. */
  ghost predicate SameCell<Hash>(t: Tree<Hash>, depth: nat, y: nat, x: nat) {
    var leaf := LeafLocation(depth, x / BLOCK_SIZE);
    Known(t, leaf) && InCell(t, depth, y, t[leaf].hash, x % BLOCK_SIZE)
  }

  /** No byte from `lo` up to `x` is the same as `x`. */
  ghost predicate NoneBefore<Hash>(t: Tree<Hash>, depth: nat, lo: nat, x: nat) {
    forall y: nat :: lo <= y < x ==> !SameCell(t, depth, y, x)
  }

  /** What a reply says of byte `x`: its payload is for the bytes from `lo` to `hi`, without trailing zeros. */
  ghost function Told(lo: nat, hi: nat, payload: seq<Byte>, x: nat): Byte {
    if lo <= x < hi && x - lo < |payload| then payload[x - lo] else 0
  }

  /** Bytes that are new are as told, unless the same byte was told before. */
  ghost predicate AsTold<Hash>(t: Tree<Hash>, depth: nat, blocks0: map<Hash, Block>, blocks: map<Hash, Block>,
                               lo: nat, hi: nat, end: nat, payload: seq<Byte>)
  {
    var ok := forall u {:trigger Seen(u)} :: Seen(u) ==>
      forall x: nat :: lo <= x < hi && NoneBefore(t, depth, lo, x) && !Arrived(t, blocks0, depth, x) ==>
        Arrived(t, blocks, depth, x) && ByteAt(t, blocks, depth, x) == Told(lo, end, payload, x);
    ok
  }

  /** Nothing else is new. */
  ghost predicate NothingElse<Hash>(t: Tree<Hash>, depth: nat, blocks0: map<Hash, Block>, blocks: map<Hash, Block>,
                                    lo: nat, hi: nat)
  {
    var ok := forall u {:trigger Seen(u)} :: Seen(u) ==>
      forall n, i: nat :: n in blocks && NewIn(blocks0, blocks, n, i) ==>
        exists x: nat :: lo <= x < hi && InCell(t, depth, x, n, i);
    ok
  }

  ghost predicate NewIn<Hash>(blocks0: map<Hash, Block>, blocks: map<Hash, Block>, n: Hash, i: nat) {
    n in blocks && |HaveIn(blocks0, n)| <= i < |blocks[n].data|
  }

  /** A piece is put: the block named `n`, which has all before `next`, has all before `hi` after that. */
  ghost predicate PutInto<Hash>(n: Hash, base: nat, next: nat, hi: nat,
                                blocks: map<Hash, Block>, blocks': map<Hash, Block>,
                                lo: nat, end: nat, payload: seq<Byte>)
  {
    var ok := forall u {:trigger Seen(u)} :: Seen(u) ==>
      var have, data := HaveIn(blocks, n), HaveIn(blocks', n);
      && n in blocks' && blocks' == blocks[n := blocks'[n]] && next - base <= |have| <= |data|
      && |data| == (if |have| < hi - base then hi - base else |have|)
      && have == data[..|have|]
      && forall i: nat :: |have| <= i < |data| ==> data[i] == Told(lo, end, payload, base + i);
    ok
  }

  lemma SentTold(lo: nat, end: nat, payload: seq<Byte>, next: nat, n: nat, j: nat)
    requires lo <= next && next + n <= end && next - lo <= |payload| && j < n
    ensures Sent(payload, next - lo, n)[j] == Told(lo, end, payload, next + j)
  {}

  /** What becomes of a block that takes the piece `bytes` at `start`. */
  ghost predicate Filled(have: seq<Byte>, start: nat, bytes: seq<Byte>, last: bool, data: seq<Byte>) {
    var ok := forall u {:trigger Seen(u)} :: Seen(u) ==>
      var stop := if last then BLOCK_SIZE else start + |bytes|;
      && start <= |have| && |data| == (if |have| < stop then stop else |have|) && have == data[..|have|]
      && forall i: nat :: |have| <= i < |data| ==> data[i] == if i < start + |bytes| then bytes[i - start] else 0;
    ok
  }

  /** How far the block of a piece reaches: to the end of the piece or where it did, or all the way at the last. */
  ghost predicate Sized<Hash>(t: Tree<Hash>, depth: nat, next: nat, stop: nat, last: bool,
                              blocks: map<Hash, Block>, blocks': map<Hash, Block>)
  {
    var sized := forall n :: n in blocks' && InCell(t, depth, next, n, next % BLOCK_SIZE) ==>
      var had, came := |HaveIn(blocks, n)|, next % BLOCK_SIZE + (stop - next);
      |blocks'[n].data| == if last then BLOCK_SIZE else if had < came then came else had;
    sized
  }

  lemma FilledSized<Hash>(hash: BlockHash<Hash>, t: Tree<Hash>, depth: nat, n: Hash, next: nat, stop: nat,
                          bytes: seq<Byte>, last: bool, blocks: map<Hash, Block>, blocks': map<Hash, Block>)
    requires InCell(t, depth, next, n, next % BLOCK_SIZE) && next + |bytes| == stop && n in blocks'
    requires Filled(HaveIn(blocks, n), next % BLOCK_SIZE, bytes, last, blocks'[n].data) && BlocksOk(hash, blocks')
    ensures Sized(t, depth, next, stop, last, blocks, blocks')
  {
    assert Seen(0);
    assert BlockOk(hash, n, blocks'[n]);
  }

  lemma FitsFilled<Hash>(hash: BlockHash<Hash>, n: Hash, have: seq<Byte>, start: nat, bytes: seq<Byte>, last: bool)
    requires |have| <= BLOCK_SIZE && start + |bytes| <= BLOCK_SIZE && Fits(hash, n, have, start, bytes, last)
    ensures Filled(have, start, bytes, last, After(have, start, bytes, last))
  {
    assert Seen(0);
  }

  /** A piece that fits, from `next` to `stop`, puts what the reply says; if it is the last, zeros after it. */
  lemma PutFits<Hash>(n: Hash, base: nat, next: nat, stop: nat, last: bool,
                      blocks: map<Hash, Block>, blocks': map<Hash, Block>, lo: nat, end: nat, payload: seq<Byte>)
    requires lo <= next < stop <= end && next - lo <= |payload| && base <= next && stop <= base + BLOCK_SIZE
    requires stop == end || stop == base + BLOCK_SIZE
    requires n in blocks' && blocks' == blocks[n := blocks'[n]]
    requires Filled(HaveIn(blocks, n), next - base, Sent(payload, next - lo, stop - next), last, blocks'[n].data)
    ensures PutInto(n, base, next, if last then base + BLOCK_SIZE else stop, blocks, blocks', lo, end, payload)
  {
    assert Seen(0);
    var have, data, bytes := HaveIn(blocks, n), blocks'[n].data, Sent(payload, next - lo, stop - next);
    forall i: nat | |have| <= i < |data|
      ensures data[i] == Told(lo, end, payload, base + i)
    {
      if i < stop - base {
        SentTold(lo, end, payload, next, stop - next, base + i - next);
      }
    }
  }

  /** The bytes from `next` to `stop` have come: what a piece does, and when it is news. */
  ghost predicate Taken<Hash>(t: Tree<Hash>, depth: nat, next: nat, stop: nat, reach: nat, changed: bool,
                              blocks: map<Hash, Block>, blocks': map<Hash, Block>,
                              lo: nat, end: nat, payload: seq<Byte>)
  {
    var taken :=
      && AllArrived(t, blocks', depth, next, stop) && Arrived(t, blocks', depth, next)
      && PutInto(t[LeafLocation(depth, next / BLOCK_SIZE)].hash, next - next % BLOCK_SIZE, next, reach,
                 blocks, blocks', lo, end, payload)
      && (changed <==> !Arrived(t, blocks, depth, next)) && (!changed ==> AllArrived(t, blocks, depth, next, stop))
      && (changed ==> blocks' != blocks) && (!changed && reach == stop ==> blocks' == blocks);
    taken
  }

  lemma TakenPiece<Hash>(t: Tree<Hash>, depth: nat, n: Hash, next: nat, stop: nat, last: bool, changed: bool,
                         blocks: map<Hash, Block>, blocks': map<Hash, Block>, lo: nat, end: nat, payload: seq<Byte>)
    requires InCell(t, depth, next, n, next % BLOCK_SIZE)
    requires lo <= next < stop <= end && next - lo <= |payload| && stop <= (next / BLOCK_SIZE + 1) * BLOCK_SIZE
    requires stop == end || stop == (next / BLOCK_SIZE + 1) * BLOCK_SIZE
    requires n in blocks' && blocks' == blocks[n := blocks'[n]]
    requires Filled(HaveIn(blocks, n), next % BLOCK_SIZE, Sent(payload, next - lo, stop - next), last, blocks'[n].data)
    requires next % BLOCK_SIZE + (stop - next) <= |blocks'[n].data|
    requires changed <==> next % BLOCK_SIZE >= |HaveIn(blocks, n)|
    requires !changed ==> next % BLOCK_SIZE + (stop - next) <= |HaveIn(blocks, n)|
    requires changed ==> blocks' != blocks
    requires !changed && (!last || stop == (next / BLOCK_SIZE + 1) * BLOCK_SIZE) ==> blocks' == blocks
    ensures Taken(t, depth, next, stop, PieceEnd(next, stop, last), changed, blocks, blocks', lo, end, payload)
  {
    PieceArrived(t, blocks', depth, next, stop);
    if !changed {
      PieceArrived(t, blocks, depth, next, stop);
    }
    PutFits(n, next - next % BLOCK_SIZE, next, stop, last, blocks, blocks', lo, end, payload);
  }

  function PieceEnd(next: nat, stop: nat, last: bool): nat {
    if last then (next / BLOCK_SIZE + 1) * BLOCK_SIZE else stop
  }

  lemma OneBlock(next: nat, x: nat)
    requires next <= x < (next / BLOCK_SIZE + 1) * BLOCK_SIZE
    ensures x / BLOCK_SIZE == next / BLOCK_SIZE && x % BLOCK_SIZE == x - (next - next % BLOCK_SIZE)
  {}

  lemma PutElse<Hash>(t: Tree<Hash>, depth: nat, n: Hash, blocks0: map<Hash, Block>, blocks: map<Hash, Block>,
                      blocks': map<Hash, Block>, lo: nat, next: nat, hi: nat, end: nat, payload: seq<Byte>)
    requires lo <= next < hi <= (next / BLOCK_SIZE + 1) * BLOCK_SIZE && InCell(t, depth, next, n, next % BLOCK_SIZE)
    requires PutInto(n, next - next % BLOCK_SIZE, next, hi, blocks, blocks', lo, end, payload)
    requires NothingElse(t, depth, blocks0, blocks, lo, next)
    ensures NothingElse(t, depth, blocks0, blocks', lo, hi)
  {
    assert Seen(0);
    forall m, i: nat | m in blocks' && NewIn(blocks0, blocks', m, i)
      ensures exists x: nat :: lo <= x < hi && InCell(t, depth, x, m, i)
    {
      if m == n && i >= |HaveIn(blocks, n)| {
        var x := next - next % BLOCK_SIZE + i;
        OneBlock(next, x);
        assert InCell(t, depth, x, m, i);
      } else {
        assert NewIn(blocks0, blocks, m, i);
        var x: nat :| lo <= x < next && InCell(t, depth, x, m, i);
      }
    }
  }

  lemma PutAsTold<Hash>(t: Tree<Hash>, depth: nat, n: Hash, blocks0: map<Hash, Block>, blocks: map<Hash, Block>,
                        blocks': map<Hash, Block>, lo: nat, next: nat, hi: nat, end: nat, payload: seq<Byte>)
    requires lo <= next < hi <= (next / BLOCK_SIZE + 1) * BLOCK_SIZE && InCell(t, depth, next, n, next % BLOCK_SIZE)
    requires PutInto(n, next - next % BLOCK_SIZE, next, hi, blocks, blocks', lo, end, payload)
    requires NothingElse(t, depth, blocks0, blocks, lo, next)
    requires AsTold(t, depth, blocks0, blocks, lo, next, end, payload)
    ensures AsTold(t, depth, blocks0, blocks', lo, hi, end, payload)
  {
    assert Seen(0);
    forall x: nat | lo <= x < hi && NoneBefore(t, depth, lo, x) && !Arrived(t, blocks0, depth, x)
      ensures Arrived(t, blocks', depth, x) && ByteAt(t, blocks', depth, x) == Told(lo, end, payload, x)
    {
      if x >= next {
        OneBlock(next, x);
        var i := x % BLOCK_SIZE;
        assert InCell(t, depth, x, n, i);
        if i < |HaveIn(blocks, n)| {
          assert NewIn(blocks0, blocks, n, i);
          var y: nat :| lo <= y < next && InCell(t, depth, y, n, i);
          assert SameCell(t, depth, y, x);
          assert false;
        }
      } else {
        assert Arrived(t, blocks, depth, x) && ByteAt(t, blocks, depth, x) == Told(lo, end, payload, x);
      }
    }
  }

  lemma NothingTold<Hash>(t: Tree<Hash>, depth: nat, blocks: map<Hash, Block>, lo: nat, end: nat, payload: seq<Byte>)
    ensures AllArrived(t, blocks, depth, lo, lo) && AsTold(t, depth, blocks, blocks, lo, lo, end, payload)
    ensures NothingElse(t, depth, blocks, blocks, lo, lo)
  {}

  lemma ToldUpTo<Hash>(t: Tree<Hash>, depth: nat, blocks0: map<Hash, Block>, blocks: map<Hash, Block>,
                       lo: nat, hi: nat, reach: nat, end: nat, payload: seq<Byte>)
    requires AsTold(t, depth, blocks0, blocks, lo, reach, end, payload) && (lo < hi ==> hi <= reach)
    ensures AsTold(t, depth, blocks0, blocks, lo, hi, end, payload)
  {
    assert Seen(0);
  }

  /** Something has changed exactly if something of what is told had not arrived. */
  lemma ChangeOn<Hash>(t: Tree<Hash>, depth: nat, blocks0: map<Hash, Block>, before: map<Hash, Block>,
                       lo: nat, next: nat, end: nat, was: bool, more: bool)
    requires lo <= next < end && (was <==> !AllArrived(t, blocks0, depth, lo, next)) && (!was ==> before == blocks0)
    requires more <==> !Arrived(t, before, depth, next)
    requires !more ==> AllArrived(t, before, depth, next, end)
    ensures was || more <==> !AllArrived(t, blocks0, depth, lo, end)
  {
    if !was && !more {
      ArrivedMore(t, blocks0, depth, lo, next, end);
    }
  }

  /** The same, said of one byte. */
  lemma ToldByte<Hash>(t: Tree<Hash>, depth: nat, blocks0: map<Hash, Block>, blocks: map<Hash, Block>,
                       lo: nat, end: nat, payload: seq<Byte>, x: nat)
    requires AsTold(t, depth, blocks0, blocks, lo, end, end, payload)
    requires lo <= x < end && NoneBefore(t, depth, lo, x) && !Arrived(t, blocks0, depth, x)
    ensures Arrived(t, blocks, depth, x)
    ensures ByteAt(t, blocks, depth, x) == if x - lo < |payload| then payload[x - lo] else 0
  {
    assert Seen(0);
  }

  /** What holds of one tree holds of another with the same hashes. */
  lemma ToldSame<Hash>(t: Tree<Hash>, t': Tree<Hash>, depth: nat, blocks0: map<Hash, Block>, blocks: map<Hash, Block>,
                       lo: nat, hi: nat, end: nat, payload: seq<Byte>)
    requires SameHashes(t, t')
    ensures AsTold(t, depth, blocks0, blocks, lo, hi, end, payload) ==>
              AsTold(t', depth, blocks0, blocks, lo, hi, end, payload)
    ensures NothingElse(t, depth, blocks0, blocks, lo, hi) ==> NothingElse(t', depth, blocks0, blocks, lo, hi)
    ensures AllArrived(t, blocks0, depth, lo, hi) <==> AllArrived(t', blocks0, depth, lo, hi)
    ensures AllArrived(t, blocks, depth, lo, hi) <==> AllArrived(t', blocks, depth, lo, hi)
  {
    assert Seen(0);
    assert forall x: nat :: Arrived(t, blocks, depth, x) <==> Arrived(t', blocks, depth, x);
    assert forall x: nat :: Arrived(t, blocks0, depth, x) <==> Arrived(t', blocks0, depth, x);
    if NothingElse(t, depth, blocks0, blocks, lo, hi) {
      forall n, i: nat | n in blocks && NewIn(blocks0, blocks, n, i)
        ensures exists x: nat :: lo <= x < hi && InCell(t', depth, x, n, i)
      {
        var x: nat :| lo <= x < hi && InCell(t, depth, x, n, i);
        assert InCell(t', depth, x, n, i);
      }
    }
    forall x: nat
      ensures NoneBefore(t, depth, lo, x) <==> NoneBefore(t', depth, lo, x)
    {
      assert forall y: nat :: SameCell(t, depth, y, x) <==> SameCell(t', depth, y, x);
    }
  }

  /** The first byte told that is the same as `x`. */
  lemma {:induction false} FirstTold<Hash>(t: Tree<Hash>, depth: nat, lo: nat, x: nat) returns (y: nat)
    requires lo <= x && SameCell(t, depth, x, x)
    ensures lo <= y <= x && SameCell(t, depth, y, x) && NoneBefore(t, depth, lo, y)
    decreases x
  {
    y := x;
    if !NoneBefore(t, depth, lo, x) {
      var z: nat :| lo <= z < x && SameCell(t, depth, z, x);
      y := FirstTold(t, depth, lo, z);
    }
  }

  /** Every byte that is new is as told if and only if no two of them that are one byte are told differently. */
  lemma ToldIff<Hash>(t: Tree<Hash>, depth: nat, blocks0: map<Hash, Block>, blocks: map<Hash, Block>,
                      lo: nat, end: nat, payload: seq<Byte>)
    requires AsTold(t, depth, blocks0, blocks, lo, end, end, payload) && AllArrived(t, blocks, depth, lo, end)
    ensures (forall x: nat :: lo <= x < end && !Arrived(t, blocks0, depth, x) ==>
               Arrived(t, blocks, depth, x) && ByteAt(t, blocks, depth, x) == Told(lo, end, payload, x)) <==>
            (forall y: nat, x: nat ::
               lo <= y < x < end && !Arrived(t, blocks0, depth, x) && SameCell(t, depth, y, x) ==>
                 Told(lo, end, payload, y) == Told(lo, end, payload, x))
  {
    var agree := forall y: nat, x: nat ::
      lo <= y < x < end && !Arrived(t, blocks0, depth, x) && SameCell(t, depth, y, x) ==>
        Told(lo, end, payload, y) == Told(lo, end, payload, x);
    assert forall x: nat :: lo <= x < end ==> Arrived(t, blocks, depth, x);
    forall y: nat, x: nat | lo <= y < x < end && SameCell(t, depth, y, x)
      ensures Arrived(t, blocks, depth, y) && Arrived(t, blocks, depth, x)
      ensures ByteAt(t, blocks, depth, y) == ByteAt(t, blocks, depth, x)
      ensures Arrived(t, blocks0, depth, y) <==> Arrived(t, blocks0, depth, x)
    {
    }
    if agree {
      forall x: nat | lo <= x < end && !Arrived(t, blocks0, depth, x)
        ensures Arrived(t, blocks, depth, x) && ByteAt(t, blocks, depth, x) == Told(lo, end, payload, x)
      {
        assert Arrived(t, blocks, depth, x);
        assert SameCell(t, depth, x, x);
        var y := FirstTold(t, depth, lo, x);
        ToldByte(t, depth, blocks0, blocks, lo, end, payload, y);
      }
    }
  }

  /**
    The bytes from `lo` to `end` are delivered: all have arrived, and nothing is new but what lies before `reach`.
    A byte that had not arrived before is as in the payload, or 0 past its end, unless it is the same byte of the
    same block as one before it.
   */
  ghost predicate Delivered<Hash>(t: Tree<Hash>, depth: nat, blocks0: map<Hash, Block>, blocks: map<Hash, Block>,
                                  lo: nat, end: nat, reach: nat, payload: seq<Byte>)
  {
    var delivered := forall u {:trigger Seen(u)} :: Seen(u) ==>
      && AllArrived(t, blocks, depth, lo, end) && NothingElse(t, depth, blocks0, blocks, lo, reach)
      && AsTold(t, depth, blocks0, blocks, lo, end, end, payload)
      && forall x: nat | lo <= x < end :: NoneBefore(t, depth, lo, x) && !Arrived(t, blocks0, depth, x) ==>
           && Arrived(t, blocks, depth, x)
           && ByteAt(t, blocks, depth, x) == if x - lo < |payload| then payload[x - lo] else 0;
    delivered
  }

  lemma DeliveredAll<Hash>(t: Tree<Hash>, depth: nat, blocks0: map<Hash, Block>, blocks: map<Hash, Block>,
                           lo: nat, end: nat, reach: nat, payload: seq<Byte>)
    requires lo < end ==> AllArrived(t, blocks, depth, lo, end) && end <= reach
    requires AsTold(t, depth, blocks0, blocks, lo, reach, end, payload)
    requires NothingElse(t, depth, blocks0, blocks, lo, reach)
    ensures Delivered(t, depth, blocks0, blocks, lo, end, reach, payload)
  {
    NothingToArrive(t, blocks, depth, lo, end);
    ToldUpTo(t, depth, blocks0, blocks, lo, end, reach, end, payload);
    forall x: nat | lo <= x < end && NoneBefore(t, depth, lo, x) && !Arrived(t, blocks0, depth, x)
      ensures Arrived(t, blocks, depth, x)
      ensures ByteAt(t, blocks, depth, x) == if x - lo < |payload| then payload[x - lo] else 0
    {
      ToldByte(t, depth, blocks0, blocks, lo, end, payload, x);
    }
  }

  /** Validating hashes does not touch what was delivered. */
  lemma DeliveredSame<Hash>(t: Tree<Hash>, t': Tree<Hash>, depth: nat, blocks0: map<Hash, Block>,
                            blocks: map<Hash, Block>, lo: nat, end: nat, reach: nat, payload: seq<Byte>)
    requires SameHashes(t, t') && Delivered(t, depth, blocks0, blocks, lo, end, reach, payload)
    ensures Delivered(t', depth, blocks0, blocks, lo, end, reach, payload)
    ensures AllArrived(t, blocks0, depth, lo, end) <==> AllArrived(t', blocks0, depth, lo, end)
  {
    DeliveredParts(t, depth, blocks0, blocks, lo, end, reach, payload);
    ToldSame(t, t', depth, blocks0, blocks, lo, end, end, payload);
    ToldSame(t, t', depth, blocks0, blocks, lo, reach, end, payload);
    forall x: nat | lo <= x < end && NoneBefore(t', depth, lo, x) && !Arrived(t', blocks0, depth, x)
      ensures Arrived(t', blocks, depth, x)
      ensures ByteAt(t', blocks, depth, x) == if x - lo < |payload| then payload[x - lo] else 0
    {
      ToldByte(t', depth, blocks0, blocks, lo, end, payload, x);
    }
  }

  lemma DeliveredParts<Hash>(t: Tree<Hash>, depth: nat, blocks0: map<Hash, Block>, blocks: map<Hash, Block>,
                             lo: nat, end: nat, reach: nat, payload: seq<Byte>)
    requires Delivered(t, depth, blocks0, blocks, lo, end, reach, payload)
    ensures AllArrived(t, blocks, depth, lo, end) && NothingElse(t, depth, blocks0, blocks, lo, reach)
    ensures AsTold(t, depth, blocks0, blocks, lo, end, end, payload)
  {
    assert Seen(0);
  }

  lemma FitsWhole<Hash>(hash: BlockHash<Hash>, n: Hash, bytes: seq<Byte>)
    requires |bytes| == BLOCK_SIZE && hash(bytes) == n
    ensures Fits(hash, n, [], 0, bytes, false)
  {
    assert [] + bytes == bytes;
  }

  lemma FitsAgain<Hash>(hash: BlockHash<Hash>, n: Hash, have: seq<Byte>, bytes: seq<Byte>, last: bool)
    requires |have| == |bytes| == BLOCK_SIZE
    ensures Fits(hash, n, have, 0, bytes, last)
  {}

  lemma PutWhole<Hash>(n: Hash, blocks: map<Hash, Block>, end: nat, payload: seq<Byte>)
    requires PutInto(n, 0, 0, BLOCK_SIZE, map[], blocks, 0, end, payload) && BLOCK_SIZE <= end == |payload|
    ensures n in blocks && |blocks[n].data| == BLOCK_SIZE && blocks[n].data[0] == payload[0]
  {
    assert Seen(0);
  }
}
