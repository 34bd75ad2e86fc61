/** The buffering around SHA-1's block function: any way of cutting a message up gives one digest. */
module Sha1 {

  import opened Words

  const CBLOCK: nat := 64
  const DOUBLE_WORD: nat := 0x1_0000_0000_0000_0000

  datatype Chain = Chain(h0: Word, h1: Word, h2: Word, h3: Word, h4: Word)

  const INITIAL: Chain := Chain(0x67452301, 0xefcdab89, 0x98badcfe, 0x10325476, 0xc3d2e1f0)

  type Compression = (Chain, seq<Byte>) -> Chain

  // ---------------------------------------------------------------- specification

  /** `sha1_block_data_order`: the block function over consecutive blocks. */
  function Fold(f: Compression, h: Chain, blocks: seq<Byte>): Chain
    decreases |blocks|
  {
    if |blocks| < CBLOCK then h else Fold(f, f(h, blocks[..CBLOCK]), blocks[CBLOCK..])
  }

  /** One block is the block function itself, and no block changes nothing. */
  lemma FoldOne(f: Compression, h: Chain, block: seq<Byte>)
    requires |block| == CBLOCK
    ensures Fold(f, h, block) == f(h, block) && Fold(f, h, []) == h
  {
    assert block[..CBLOCK] == block && block[CBLOCK..] == [];
  }

  function BigEndian32(n: nat): seq<Byte> {
    [(n / 0x1000000 % 256) as Byte, (n / 0x10000 % 256) as Byte, (n / 0x100 % 256) as Byte, (n % 256) as Byte]
  }

  /** The word that four bytes spell, the most significant first. */
  function Read32(bytes: seq<Byte>, at: nat): nat
    requires at + 4 <= |bytes|
  {
    bytes[at] as nat * 0x1000000 + bytes[at + 1] as nat * 0x10000 + bytes[at + 2] as nat * 0x100 + bytes[at + 3] as nat
  }

  lemma ReadBigEndian(n: Word)
    ensures |BigEndian32(n)| == 4 && Read32(BigEndian32(n), 0) == n
  {
    assert n == n / 0x100 * 0x100 + n % 0x100;
    assert n / 0x100 == n / 0x10000 * 0x100 + n / 0x100 % 0x100;
    assert n / 0x10000 == n / 0x1000000 * 0x100 + n / 0x10000 % 0x100;
    assert n / 0x1000000 < 256;
  }

  lemma ReadInside(before: seq<Byte>, n: Word, after: seq<Byte>)
    ensures Read32(before + BigEndian32(n) + after, |before|) == n
  {
    ReadBigEndian(n);
    var bytes := before + BigEndian32(n) + after;
    assert forall i :: 0 <= i < 4 ==> bytes[|before| + i] == BigEndian32(n)[i];
  }

  /** The bits of a message of `n` bytes, as a 64-bit count. */
  function BitCount(n: nat): nat {
    (8 * n) % DOUBLE_WORD
  }

  /** How many zero bytes go between the marker and the length. */
  function PadZeros(n: nat): nat {
    (119 - n % CBLOCK) % CBLOCK
  }

  /** Section 5.1.1 of FIPS 180-4: a one bit, zeros, and the length in 64 bits. */
  function Pad(m: seq<Byte>): seq<Byte> {
    var bits := BitCount(|m|);
    m + [0x80] + Zeros(PadZeros(|m|)) + BigEndian32(bits / WORD) + BigEndian32(bits % WORD)
  }

  /** What padding adds: the marker, zeros, and the number of bits as 64 bits, the most significant first. */
  lemma PadSpells(m: seq<Byte>)
    ensures var p := Pad(m);
            && |p| >= |m| + 9 && p[..|m|] == m && p[|m|] == 0x80
            && (forall i :: |m| < i < |p| - 8 ==> p[i] == 0)
            && Read32(p, |p| - 8) * WORD + Read32(p, |p| - 4) == (8 * |m|) % 0x1_0000_0000_0000_0000
  {
    var bits := BitCount(|m|);
    var front := m + [0x80] + Zeros(PadZeros(|m|));
    var high, low := BigEndian32(bits / WORD), BigEndian32(bits % WORD);
    assert Pad(m) == front + high + low && Pad(m) == front + high + low + [];
    ReadInside(front, bits / WORD, low);
    ReadInside(front + high, bits % WORD, []);
  }

  /** Padding fills whole blocks. */
  lemma PadFills(m: seq<Byte>)
    ensures |Pad(m)| == |m| + 9 + PadZeros(|m|) && |Pad(m)| % CBLOCK == 0
  {
    PadZerosFill(|m|);
  }

  lemma PadZerosFill(n: nat)
    ensures (n + 9 + PadZeros(n)) % CBLOCK == 0
  {}

  /** No fewer zeros would fill the last block. */
  lemma PadZerosFewest(n: nat, k: nat)
    requires (n + 9 + k) % CBLOCK == 0
    ensures PadZeros(n) <= k
  {
    PadZerosFill(n);
  }

  function DigestBytes(h: Chain): seq<Byte> {
    BigEndian32(h.h0) + BigEndian32(h.h1) + BigEndian32(h.h2) + BigEndian32(h.h3) + BigEndian32(h.h4)
  }

  /** The digest spells the five chaining words in order. */
  ghost predicate Spells(digest: seq<Byte>, h: Chain) {
    && |digest| == 20
    && Read32(digest, 0) == h.h0 && Read32(digest, 4) == h.h1 && Read32(digest, 8) == h.h2
    && Read32(digest, 12) == h.h3 && Read32(digest, 16) == h.h4
  }

  lemma DigestSpells(h: Chain)
    ensures Spells(DigestBytes(h), h)
  {
    var a, b, c, d, e := BigEndian32(h.h0), BigEndian32(h.h1), BigEndian32(h.h2), BigEndian32(h.h3), BigEndian32(h.h4);
    var digest := DigestBytes(h);
    assert digest == [] + a + (b + c + d + e);
    ReadInside([], h.h0, b + c + d + e);
    assert digest == a + b + (c + d + e);
    ReadInside(a, h.h1, c + d + e);
    assert digest == a + b + c + (d + e);
    ReadInside(a + b, h.h2, d + e);
    ReadInside(a + b + c, h.h3, e);
    assert digest == a + b + c + d + e + [];
    ReadInside(a + b + c + d, h.h4, []);
  }

  /** The digest of a message: the block function folded over the padded message. */
  function Digest(f: Compression, m: seq<Byte>): seq<Byte> {
    DigestBytes(Fold(f, INITIAL, Pad(m)))
  }

  lemma {:induction false} FoldAppend(f: Compression, h: Chain, a: seq<Byte>, b: seq<Byte>)
    requires |a| % CBLOCK == 0
    ensures Fold(f, h, a + b) == Fold(f, Fold(f, h, a), b)
    decreases |a|
  {
    if a == [] {
      assert a + b == b;
    } else {
      assert |a| >= CBLOCK;
      FoldAppend(f, f(h, a[..CBLOCK]), a[CBLOCK..], b);
      assert (a + b)[..CBLOCK] == a[..CBLOCK] && (a + b)[CBLOCK..] == a[CBLOCK..] + b;
    }
  }

  lemma AlignedSum(a: nat, b: nat)
    requires a % CBLOCK == 0 && b % CBLOCK == 0
    ensures (a + b) % CBLOCK == 0
  {}

  // ---------------------------------------------------------------- counters

  /** Two 32-bit words, the high one first, count the bits of a message of `n` bytes. */
  ghost predicate Counts(high: nat, low: nat, n: nat) {
    var ok := high < WORD && low < WORD && high * WORD + low == BitCount(n);
    ok
  }

  /** Adding a chunk's bits word by word, with the carry, keeps the count. */
  lemma CountsMore(high: nat, low: nat, n: nat, len: nat, high': nat, low': nat)
    requires Counts(high, low, n) && len < WORD
    requires low' == (low + (8 * len) % WORD) % WORD
    requires high' == (high + len / 0x2000_0000 + (if low + (8 * len) % WORD >= WORD then 1 else 0)) % WORD
    ensures Counts(high', low', n + len)
  {
    var add := (8 * len) % WORD;
    assert 8 * len == (len / 0x2000_0000) * WORD + add;
    var carry := if low + add >= WORD then 1 else 0;
    var total := high + len / 0x2000_0000 + carry;
    assert low' == low + add - carry * WORD;
    assert total * WORD + low' == high * WORD + low + 8 * len;
    assert high' == total % WORD;
    ModWords(total, low');
    BitCountMore(n, len);
  }

  lemma ModWords(total: nat, low: nat)
    requires low < WORD
    ensures (total * WORD + low) % DOUBLE_WORD == (total % WORD) * WORD + low
  {}

  lemma BitCountMore(n: nat, len: nat)
    ensures BitCount(n + len) == (BitCount(n) + 8 * len) % DOUBLE_WORD
  {}

  /** The carry shows as a sum smaller than either part. */
  lemma CarryTests(low: nat, add: nat)
    requires low < WORD && add < WORD
    ensures (low + add) % WORD < low <==> low + add >= WORD
    ensures (low + add) % WORD < add <==> low + add >= WORD
  {}

  lemma CarryAdded(high: nat, carry: nat, more: nat)
    ensures ((high + carry) % WORD + more) % WORD == (high + more + carry) % WORD
  {}

  lemma BlocksIn(len: nat)
    ensures 0 <= len / CBLOCK * CBLOCK <= len < len / CBLOCK * CBLOCK + CBLOCK
    ensures (len / CBLOCK * CBLOCK) % CBLOCK == 0
  {}

  lemma NothingFolded(f: Compression)
    ensures Fold(f, INITIAL, []) == INITIAL
  {}

  lemma NothingCounted()
    ensures Counts(0, 0, 0)
  {}

  lemma NumIsRest(whole: nat, num: nat)
    requires whole % CBLOCK == 0 && num < CBLOCK
    ensures (whole + num) % CBLOCK == num
    ensures (whole + num + (CBLOCK - num)) % CBLOCK == 0
  {}

  /** What the last block or two hold, given what is left in the buffer. */
  lemma PadTail(m: seq<Byte>, n: nat, high: nat, low: nat)
    requires n == |m| % CBLOCK && Counts(high, low, |m|)
    ensures PadZeros(|m|) == (if CBLOCK - (n + 1) >= 8 then CBLOCK else 2 * CBLOCK) - 9 - n
    ensures BitCount(|m|) / WORD == high && BitCount(|m|) % WORD == low
  {}

  // ---------------------------------------------------------------- the context

  class Context {
    const f: Compression
    var h: Chain
    var low: nat
    var high: nat
    const data: array<Byte>
    var num: nat
    ghost var message: seq<Byte>
    ghost var folded: seq<Byte>

    ghost predicate Folded()
      reads this
    {
      var ok := |folded| % CBLOCK == 0 && h == Fold(f, INITIAL, folded);
      ok
    }

    /** The chaining words stand for whole blocks of the message so far; the buffer holds the rest. */
    ghost predicate Buffered()
      reads this, data
    {
      var ok :=
        && data.Length == CBLOCK
        && Folded()
        && num < CBLOCK && message == folded + data[..num];
      ok
    }

    ghost predicate Valid()
      reads this, data
    {
      var ok := Buffered() && Counts(high, low, |message|);
      ok
    }

    constructor (f: Compression)
      ensures Valid() && fresh(data) && message == [] && this.f == f
    {
      this.f := f;
      h := INITIAL;
      low, high, num := 0, 0, 0;
      data := new Byte[CBLOCK](_ => 0);
      message, folded := [], [];
      new;
      NothingFolded(f);
      NothingCounted();
    }

    /** Count a chunk's bits, taking the carry from the sum. */
    method Count(len: nat, ghost n: nat)
      requires Counts(high, low, n) && len < WORD
      modifies this`high, this`low
      ensures Counts(high, low, n + len)
    {
      var add := (8 * len) % WORD;
      var l := (low + add) % WORD;
      CarryTests(low, add);
      CountsMore(high, low, n, len,
                 (high + len / 0x2000_0000 + (if low + add >= WORD then 1 else 0)) % WORD, l);
      CarryAdded(high, if l < low then 1 else 0, len / 0x2000_0000);
      if l < low {
        high := (high + 1) % WORD;
      }
      high := (high + len / 0x2000_0000) % WORD;
      low := l;
    }

    /** Copy bytes into the buffer at `at`. */
    method Store(at: nat, bytes: seq<Byte>)
      requires data.Length == CBLOCK && at + |bytes| <= CBLOCK
      modifies data
      ensures data[..at + |bytes|] == old(data[..at]) + bytes
    {
      forall i | 0 <= i < |bytes| {
        data[at + i] := bytes[i];
      }
    }

    /** `SHA1_Update`: top the buffer up, fold the whole blocks, keep the rest. */
    method Absorb(chunk: seq<Byte>)
      requires Valid() && |chunk| < WORD
      modifies this, data
      ensures Valid() && message == old(message) + chunk
    {
      if |chunk| == 0 {
        assert message + chunk == message;
        return;
      }
      Count(|chunk|, |message|);
      Buffer(chunk);
    }

    method Buffer(chunk: seq<Byte>)
      requires Buffered()
      modifies this`h, this`num, this`message, this`folded, data
      ensures Buffered() && message == old(message) + chunk
    {
      message := message + chunk;
      if num != 0 && |chunk| + num < CBLOCK {
        Store(num, chunk);
        num := num + |chunk|;
        return;
      }
      var left := TopUp(chunk);
      FoldWhole(left);
    }

    /** Fold the whole blocks straight from the input and keep what is left of it. */
    method FoldWhole(input: seq<Byte>)
      requires data.Length == CBLOCK && num == 0 && Folded()
      modifies this`h, this`num, this`folded, data
      ensures Folded() && num < CBLOCK && folded + data[..num] == old(folded) + input
    {
      var left := input;
      var n := |left| / CBLOCK;
      BlocksIn(|left|);
      if n > 0 {
        FoldBlocks(left[..n * CBLOCK]);
        left := left[n * CBLOCK..];
      }
      assert folded + left == old(folded) + input;
      if |left| != 0 {
        num := |left|;
        Store(0, left);
      }
      assert data[..num] == left;
    }

    method FoldBlocks(blocks: seq<Byte>)
      requires Folded() && |blocks| % CBLOCK == 0
      modifies this`h, this`folded
      ensures Folded() && folded == old(folded) + blocks
    {
      AlignedSum(|folded|, |blocks|);
      FoldAppend(f, INITIAL, folded, blocks);
      h := Fold(f, h, blocks);
      folded := folded + blocks;
    }

    /** Complete the block in the buffer, if one is begun, and fold it in. */
    method TopUp(chunk: seq<Byte>) returns (left: seq<Byte>)
      requires data.Length == CBLOCK && num < CBLOCK && (num != 0 ==> |chunk| + num >= CBLOCK) && Folded()
      modifies this`h, this`num, this`folded, data
      ensures Folded() && num == 0
      ensures old(folded) + old(data[..num]) + chunk == folded + left
    {
      left := chunk;
      if num != 0 {
        var n := num;
        Store(n, chunk[..CBLOCK - n]);
        var first := data[..];
        assert first == data[..CBLOCK] == old(data[..num]) + chunk[..CBLOCK - n];
        FoldBlocks(first);
        left := chunk[CBLOCK - n..];
        num := 0;
        Store(0, Zeros(CBLOCK));
        Rejoin(old(folded), old(data[..num]), chunk, CBLOCK - n);
      }
    }

    /** `sha1_update`: fill a begun block, fold whole blocks without copying them, keep the rest. */
    method Update(chunk: seq<Byte>)
      requires Valid() && |chunk| < WORD
      modifies this, data
      ensures Valid() && message == old(message) + chunk
    {
      var input := chunk;
      var res := num;
      if res != 0 {
        NumIsRest(|folded|, num);
        res := CBLOCK - res;
        if |input| < res {
          res := |input|;
        }
        Absorb(input[..res]);
        NumIsRest(|folded|, num);
        input := input[res..];
      }
      assert message + input == old(message) + chunk;
      FoldDirect(input);
    }

    method FoldDirect(input: seq<Byte>)
      requires Valid() && |input| < WORD && (num != 0 ==> input == [])
      modifies this, data
      ensures Valid() && message == old(message) + input
    {
      var res := |input| % CBLOCK;
      var len := |input| - res;
      BlocksIn(|input|);
      if len != 0 {
        FoldCounted(input[..len]);
      }
      if res != 0 {
        Absorb(input[len..]);
      }
      assert input[..len] + input[len..] == input;
    }

    method FoldCounted(blocks: seq<Byte>)
      requires Valid() && num == 0 && |blocks| % CBLOCK == 0 && |blocks| < WORD
      modifies this`h, this`folded, this`message, this`high, this`low
      ensures Valid() && message == old(message) + blocks
    {
      FoldBlocks(blocks);
      CountDirect(|blocks|, |message|);
      message := message + blocks;
      assert data[..0] == [];
    }

    /** The same count, with the carry taken from the other part of the sum. */
    method CountDirect(len: nat, ghost n: nat)
      requires Counts(high, low, n) && len < WORD
      modifies this`high, this`low
      ensures Counts(high, low, n + len)
    {
      var add := (8 * len) % WORD;
      CarryTests(low, add);
      CountsMore(high, low, n, len,
                 (high + len / 0x2000_0000 + (if low + add >= WORD then 1 else 0)) % WORD, (low + add) % WORD);
      CarryAdded(high, len / 0x2000_0000, if low + add >= WORD then 1 else 0);
      high := (high + len / 0x2000_0000) % WORD;
      low := (low + add) % WORD;
      if low < add {
        high := (high + 1) % WORD;
      }
    }

    /** `sha1_final`: pad in a buffer of one or two blocks, fold it, and write the digest out. */
    method Final() returns (digest: seq<Byte>)
      requires Valid()
      modifies this`h
      ensures digest == Digest(f, message) && Spells(digest, Fold(f, INITIAL, Pad(message)))
    {
      var final := PadBuffer();
      FoldAppend(f, INITIAL, folded, final);
      DigestSpells(Fold(f, INITIAL, Pad(message)));
      h := Fold(f, h, final);
      digest := BigEndian32(h.h0) + BigEndian32(h.h1) + BigEndian32(h.h2) + BigEndian32(h.h3) + BigEndian32(h.h4);
    }

    method PadBuffer() returns (final: seq<Byte>)
      requires Valid()
      ensures folded + final == Pad(message)
    {
      var blocks := if CBLOCK - (num + 1) >= 8 then 1 else 2;
      final := FillTail(data[..num], blocks * CBLOCK, high, low);
      NumIsRest(|folded|, num);
      PadTail(message, num, high, low);
      assert folded + final == folded + data[..num] + [0x80] + Zeros(PadZeros(|message|))
                               + BigEndian32(high) + BigEndian32(low);
    }
  }

  lemma Rejoin(a: seq<Byte>, b: seq<Byte>, c: seq<Byte>, k: nat)
    requires k <= |c|
    ensures a + b + c == a + (b + c[..k]) + c[k..]
  {}

  /** The end of the padded message, laid out in a buffer of zeros. */
  method FillTail(rest: seq<Byte>, size: nat, high: nat, low: nat) returns (final: seq<Byte>)
    requires |rest| + 9 <= size <= 2 * CBLOCK
    ensures final == rest + [0x80] + Zeros(size - 9 - |rest|) + BigEndian32(high) + BigEndian32(low)
  {
    var buffer := new Byte[2 * CBLOCK](_ => 0);
    forall i | 0 <= i < |rest| {
      buffer[i] := rest[i];
    }
    buffer[|rest|] := 0x80;
    assert buffer[..size - 8] == rest + [0x80] + Zeros(size - 9 - |rest|);
    Write32(buffer, size - 8, high);
    assert buffer[..size - 4] == buffer[..size - 8] + buffer[size - 8..size - 4];
    Write32(buffer, size - 4, low);
    final := buffer[..size];
    assert final == buffer[..size - 4] + buffer[size - 4..size];
  }

  ghost function Concat(chunks: seq<seq<Byte>>): seq<Byte> {
    if chunks == [] then [] else Concat(chunks[..|chunks| - 1]) + chunks[|chunks| - 1]
  }

  /** However the message is cut into updates, the digest is that of the whole message. */
  method HashChunks(f: Compression, chunks: seq<seq<Byte>>) returns (digest: seq<Byte>)
    requires forall i :: 0 <= i < |chunks| ==> |chunks[i]| < WORD
    ensures digest == Digest(f, Concat(chunks)) && Spells(digest, Fold(f, INITIAL, Pad(Concat(chunks))))
  {
    var context := new Context(f);
    var i := 0;
    while i < |chunks|
      invariant 0 <= i <= |chunks|
      invariant context.Valid() && fresh(context) && fresh(context.data) && context.f == f
      invariant context.message == Concat(chunks[..i])
    {
      context.Update(chunks[i]);
      assert chunks[..i + 1][..i] == chunks[..i];
      i := i + 1;
    }
    assert chunks[..i] == chunks;
    digest := context.Final();
  }

  method Write32(buffer: array<Byte>, at: nat, n: nat)
    requires at + 4 <= buffer.Length
    modifies buffer
    ensures buffer[at..at + 4] == BigEndian32(n)
    ensures buffer[..at] == old(buffer[..at]) && buffer[at + 4..] == old(buffer[at + 4..])
  {
    var bytes := BigEndian32(n);
    buffer[at], buffer[at + 1], buffer[at + 2], buffer[at + 3] := bytes[0], bytes[1], bytes[2], bytes[3];
  }
}
