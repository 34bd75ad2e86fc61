/** A file being loaded over ZFTP: replies bring metadata and hashes, and what matches is validated. */
module CachedFiles {

  import opened BlockCaches
  import opened LiteLog2
  import opened MerkleTrees
  import opened Options
  import opened Words

  datatype InstallResult = Fail | NoEffect | NewData

  /** A reply carries the file's metadata, hashes for places in its tree, and the bytes of a range. */
  datatype Reply<Metadata, Hash> = Reply(metadata: Metadata, records: seq<(nat, Hash)>,
                                         dataStart: nat, dataEnd: nat, payload: seq<Byte>)

  /** Known nodes are untouched and new ones are tentative. */
  ghost predicate OnlyMarks<Hash>(t: Tree<Hash>, t': Tree<Hash>) {
    && |t| == |t'|
    && forall i: nat :: i < |t| ==> if Known(t, i) then t'[i] == t[i] else !t'[i].Validated?
  }

  /** A node that became known was sent, or is the hash of its children. */
  ghost predicate Accounted<Hash>(h: (Hash, Hash) -> Hash, t: Tree<Hash>, t': Tree<Hash>, sent: seq<(nat, Hash)>) {
    forall i: nat :: Known(t', i) && !Known(t, i) ==> (i, t'[i].hash) in sent || Matches(h, t', i)
  }

  /** A record contradicts a hash that is validated. */
  predicate Contradicts<Hash(==)>(t: Tree<Hash>, record: (nat, Hash)) {
    record.0 < |t| && t[record.0].Validated? && t[record.0].hash != record.1
  }

  lemma OnlyMarksKeeps<Hash>(t: Tree<Hash>, t': Tree<Hash>)
    requires OnlyMarks(t, t')
    ensures Keeps(t, t')
  {}

  lemma OnlyMarksTrans<Hash>(t: Tree<Hash>, u: Tree<Hash>, v: Tree<Hash>)
    requires OnlyMarks(t, u) && OnlyMarks(u, v)
    ensures OnlyMarks(t, v)
  {}

  lemma AccountedTrans<Hash>(h: (Hash, Hash) -> Hash, t: Tree<Hash>, u: Tree<Hash>, v: Tree<Hash>,
                             sent: seq<(nat, Hash)>, more: seq<(nat, Hash)>)
    requires Keeps(u, v) && Accounted(h, t, u, sent) && Accounted(h, u, v, more)
    ensures Accounted(h, t, v, sent + more)
  {}

  class CachedFile<Metadata, Hash(==)> {
    /** The hash of two hashes, of metadata with the root's hash and of a block; a file's length by its metadata. */
    const combine: (Hash, Hash) -> Hash
    const bind: (Metadata, Hash) -> Hash
    const hashBlock: BlockHash<Hash>
    const fileLength: Metadata -> nat
    const fileHash: Hash

    var metadata: Option<Metadata>
    var tree: Tree<Hash>
    var parentsOfTentative: set<nat>
    var progressCounter: nat
    var blocks: map<Hash, Block>

    ghost predicate Valid()
      reads this
    {
      var ok :=
        if metadata.None? then tree == [] && parentsOfTentative == {}
        else
          && Sound(combine, tree, parentsOfTentative)
          && |tree| == TreeSizeFor(metadata.value)
          && bind(metadata.value, tree[0].hash) == fileHash;
      ok && BlocksOk(hashBlock, blocks)
    }

    /** Between replies nothing waits for validation. */
    ghost predicate AtRest()
      reads this
    {
      parentsOfTentative == {}
    }

    /** A full binary tree over the fewest leaves that are a power of two and enough. */
    lemma TreeSizeIs(m: Metadata)
      ensures var leaves := TreeSizeFor(m) / 2 + 1;
              && TreeSizeFor(m) == 2 * leaves - 1 && leaves == Pow2(TreeDepth(NumBlocks(fileLength(m))))
              && NumBlocks(fileLength(m)) <= leaves && (leaves > 1 ==> leaves / 2 < NumBlocks(fileLength(m)))
    {
      var n := NumBlocks(fileLength(m));
      var depth := TreeDepth(n);
      if n > 0 {
        DepthFits(n);
        assert depth > 0 ==> Pow2(depth - 1) < n;
      }
    }

    function TreeSizeFor(m: Metadata): nat {
      TreeSize(TreeDepth(NumBlocks(fileLength(m))))
    }

    constructor (combine: (Hash, Hash) -> Hash, bind: (Metadata, Hash) -> Hash, hashBlock: BlockHash<Hash>,
                 fileLength: Metadata -> nat, fileHash: Hash)
      ensures Valid() && AtRest() && metadata == None && blocks == map[] && progressCounter == 0
      ensures this.combine == combine && this.bind == bind && this.hashBlock == hashBlock
      ensures this.fileLength == fileLength && this.fileHash == fileHash
    {
      this.combine, this.bind, this.hashBlock := combine, bind, hashBlock;
      this.fileLength, this.fileHash := fileLength, fileHash;
      metadata, tree, parentsOfTentative, progressCounter := None, [], {}, 0;
      blocks := map[];
    }

    /** `_mark_node_tentative`: a node becomes known, and so does every ancestor that can now be hashed. */
    method MarkNodeTentative(location: nat, hash: Hash)
      requires Rising(combine, tree, parentsOfTentative, location)
      requires BothKnown(tree, location) ==>
                 hash == combine(tree[LeftChild(location)].hash, tree[RightChild(location)].hash)
      modifies this`tree, this`parentsOfTentative
      ensures Sound(combine, tree, parentsOfTentative)
      ensures OnlyMarks(old(tree), tree) && tree[location] == Tentative(hash)
      ensures Accounted(combine, old(tree), tree, [(location, hash)])
      decreases location
    {
      MarkStep(combine, tree, parentsOfTentative, location, hash);
      Family(location);
      var p, sibling := Parent(location), Sibling(location);
      tree := tree[location := Tentative(hash)];
      parentsOfTentative := Track(tree, parentsOfTentative, p);
      ghost var t := tree;
      if tree[p].Unknown? && !tree[sibling].Unknown? {
        var l, r := LeftChild(p), RightChild(p);
        MarkNodeTentative(p, combine(tree[l].hash, tree[r].hash));
        assert Known(t, l) && Known(t, r);
        assert Matches(combine, tree, p);
        OnlyMarksTrans(old(tree), t, tree);
        OnlyMarksKeeps(t, tree);
        forall i: nat | Known(tree, i) && !Known(old(tree), i)
          ensures (i, tree[i].hash) in [(location, hash)] || Matches(combine, tree, i)
        {
          if i != location {
            assert !Known(t, i);
          }
        }
      }
    }

    /** `install_merkle_records`; stops short, as the failing assertion does, at a record that contradicts. */
    method InstallMerkleRecords(records: seq<(nat, Hash)>) returns (ok: bool, causedChange: bool)
      requires Sound(combine, tree, parentsOfTentative)
      requires forall r :: r in records ==> r.0 < |tree|
      modifies this`tree, this`parentsOfTentative
      ensures Sound(combine, tree, parentsOfTentative)
      ensures OnlyMarks(old(tree), tree) && Accounted(combine, old(tree), tree, records)
      ensures ok <==> !exists r :: r in records && Contradicts(old(tree), r)
      ensures ok ==> forall r :: r in records ==> Known(tree, r.0)
      ensures causedChange <==> tree != old(tree)
      ensures !causedChange ==> parentsOfTentative == old(parentsOfTentative)
    {
      causedChange := false;
      var i := 0;
      while i < |records|
        invariant 0 <= i <= |records|
        invariant Sound(combine, tree, parentsOfTentative)
        invariant OnlyMarks(old(tree), tree) && Accounted(combine, old(tree), tree, records[..i])
        invariant forall r :: r in records[..i] ==> !Contradicts(old(tree), r) && Known(tree, r.0)
        invariant causedChange <==> tree != old(tree)
        invariant !causedChange ==> parentsOfTentative == old(parentsOfTentative)
      {
        var location, hash := records[i].0, records[i].1;
        assert records[i] in records;
        assert Contradicts(tree, records[i]) <==> Contradicts(old(tree), records[i]);
        ghost var t := tree;
        if tree[location].Validated? {
          if tree[location].hash != hash {
            ok := false;
            AccountedTrans(combine, old(tree), tree, tree, records[..i], records[i..]);
            assert records[..i] + records[i..] == records;
            return;
          }
        } else if tree[location].Unknown? {
          SoundRising(combine, tree, parentsOfTentative, location);
          MarkNodeTentative(location, hash);
          OnlyMarksTrans(old(tree), t, tree);
          assert !Known(old(tree), location);
          causedChange := true;
        }
        OnlyMarksKeeps(t, tree);
        AccountedTrans(combine, old(tree), t, tree, records[..i], [records[i]]);
        assert records[..i + 1] == records[..i] + [records[i]];
        i := i + 1;
      }
      ok := true;
      assert records[..i] == records;
    }

    /** `_validate_children`: two children that hash to their parent are validated together. */
    method ValidateChildren(p: nat, ghost waiting: set<nat>) returns (result: InstallResult)
      requires Sound(combine, tree, waiting) && p in waiting
      modifies this`tree
      ensures tree == Checked(combine, old(tree), p)
      ensures Sound(combine, tree, waiting - {p})
      ensures result == if Matches(combine, old(tree), p) then NewData else Fail
    {
      CheckStep(combine, tree, waiting, p);
      var l, r := LeftChild(p), RightChild(p);
      assert BothKnown(tree, p);
      var computed := combine(tree[l].hash, tree[r].hash);
      if tree[p].hash == computed {
        tree := tree[l := Validated(tree[l].hash)];
        tree := tree[r := Validated(tree[r].hash)];
        result := NewData;
      } else {
        result := Fail;
      }
    }

    method ValidateNext(p: nat, ghost waiting: set<nat>, ghost t0: Tree<Hash>, ghost parents: set<nat>)
      returns (result: InstallResult)
      requires Sound(combine, tree, waiting) && p in waiting && waiting <= parents
      requires SameHashes(t0, tree) && Outcome(t0, parents - waiting, tree)
      modifies this`tree
      ensures Sound(combine, tree, waiting - {p})
      ensures SameHashes(t0, tree) && Outcome(t0, parents - (waiting - {p}), tree)
      ensures result == if Matches(combine, t0, p) then NewData else Fail
    {
      ghost var t := tree;
      MatchesSame(combine, t0, t, p);
      result := ValidateChildren(p, waiting);
      CheckedKeeps(combine, t, p);
      SameHashesTrans(t0, t, tree);
      OutcomeMore(t0, t, parents, waiting, p);
    }

    /** `_validate_tentative_hashes`: in whatever order, exactly the waiting pairs that match are validated. */
    method ValidateTentativeHashes() returns (result: InstallResult)
      requires Sound(combine, tree, parentsOfTentative)
      modifies this`tree, this`parentsOfTentative
      ensures Sound(combine, tree, {}) && AtRest()
      ensures SameHashes(old(tree), tree)
      ensures Outcome(old(tree), old(parentsOfTentative), tree)
      ensures result == NoEffect <==> old(parentsOfTentative) == {}
      ensures result == NewData ==> exists p :: p in old(parentsOfTentative) && Matches(combine, old(tree), p)
      ensures old(parentsOfTentative) == {} ==> tree == old(tree)
    {
      result := NoEffect;
      var waiting := parentsOfTentative;
      parentsOfTentative := {};
      while waiting != {}
        invariant Sound(combine, tree, waiting) && waiting <= old(parentsOfTentative) && AtRest()
        invariant SameHashes(old(tree), tree)
        invariant Outcome(old(tree), old(parentsOfTentative) - waiting, tree)
        invariant result == NoEffect ==> waiting == old(parentsOfTentative) && tree == old(tree)
        invariant result != NoEffect ==> old(parentsOfTentative) != {}
        invariant result == NewData ==> exists p :: p in old(parentsOfTentative) && Matches(combine, old(tree), p)
        decreases |waiting|
      {
        var p := PickAny(waiting);
        result := ValidateNext(p, waiting, old(tree), old(parentsOfTentative));
        waiting := waiting - {p};
      }
      assert old(parentsOfTentative) - waiting == old(parentsOfTentative);
    }

    /** The node's parent waited and matches. */
    ghost predicate Confirmed(t: Tree<Hash>, waited: set<nat>, i: nat) {
      i > 0 && Parent(i) in waited && Matches(combine, t, Parent(i))
    }

    /** What is validated, once the parents that waited have been looked at. */
    ghost predicate Outcome(t0: Tree<Hash>, waited: set<nat>, t: Tree<Hash>) {
      var ok :=
        && |t| == |t0|
        && forall i: nat :: i < |t| ==> (t[i].Validated? <==> t0[i].Validated? || Confirmed(t0, waited, i));
      ok
    }

    lemma OutcomeMore(t0: Tree<Hash>, t: Tree<Hash>, parents: set<nat>, waiting: set<nat>, p: nat)
      requires SameHashes(t0, t) && BothKnown(t, p) && p in waiting && waiting <= parents
      requires Outcome(t0, parents - waiting, t)
      ensures Outcome(t0, parents - (waiting - {p}), Checked(combine, t, p))
    {
      MatchesSame(combine, t0, t, p);
      var t' := Checked(combine, t, p);
      forall i: nat | i < |t'|
        ensures t'[i].Validated? <==> t0[i].Validated? || Confirmed(t0, parents - (waiting - {p}), i)
      {
        CheckedAt(t, p, i);
        ConfirmedMore(t0, parents, waiting, p, i);
      }
    }

    lemma CheckedAt(t: Tree<Hash>, p: nat, i: nat)
      requires BothKnown(t, p) && i < |t|
      ensures |Checked(combine, t, p)| == |t|
      ensures Checked(combine, t, p)[i].Validated? <==>
              t[i].Validated? || (i > 0 && Parent(i) == p && Matches(combine, t, p))
    {
      if i > 0 {
        Family(i);
      }
    }

    lemma ConfirmedMore(t0: Tree<Hash>, parents: set<nat>, waiting: set<nat>, p: nat, i: nat)
      requires p in waiting && waiting <= parents
      ensures Confirmed(t0, parents - (waiting - {p}), i) <==>
              Confirmed(t0, parents - waiting, i) || (i > 0 && Parent(i) == p && Matches(combine, t0, p))
    {}

    /** `_find_root_merkle_record_idx`: the first record for location 0. */
    method FindRootRecord(records: seq<(nat, Hash)>) returns (root: Option<Hash>)
      ensures root.None? <==> forall i :: 0 <= i < |records| ==> records[i].0 != 0
      ensures root.Some? ==> IsRoot(records, root.value)
    {
      var i := 0;
      while i < |records|
        invariant 0 <= i <= |records| && forall j :: 0 <= j < i ==> records[j].0 != 0
      {
        if records[i].0 == 0 {
          assert FirstRoot(records, i);
          return Some(records[i].1);
        }
        i := i + 1;
      }
      root := None;
    }

    ghost predicate FirstRoot(records: seq<(nat, Hash)>, i: int) {
      0 <= i < |records| && records[i].0 == 0 && forall j :: 0 <= j < i ==> records[j].0 != 0
    }

    ghost predicate IsRoot(records: seq<(nat, Hash)>, root: Hash) {
      exists i :: FirstRoot(records, i) && records[i].1 == root
    }

    /** The reply's metadata and the first root hash it brings are the ones the file is named by. */
    ghost predicate Genuine(reply: Reply<Metadata, Hash>) {
      exists i :: FirstRoot(reply.records, i) && bind(reply.metadata, reply.records[i].1) == fileHash
    }

    /** `_install_metadata`: the first genuine reply fixes the metadata, the tree's size and its root. */
    method InstallMetadata(reply: Reply<Metadata, Hash>) returns (result: InstallResult)
      requires Valid()
      modifies this`metadata, this`tree
      ensures Valid()
      ensures result == NoEffect <==> old(metadata).Some?
      ensures result == Fail <==> old(metadata).None? && !Genuine(reply)
      ensures result != NewData ==> metadata == old(metadata) && tree == old(tree)
      ensures result == NewData ==>
        && metadata == Some(reply.metadata) && |tree| == TreeSizeFor(reply.metadata)
        && tree[0].Validated? && IsRoot(reply.records, tree[0].hash)
        && (forall i :: 0 < i < |tree| ==> tree[i].Unknown?)
    {
      if metadata.Some? {
        return NoEffect;
      }
      var root := FindRootRecord(reply.records);
      if root.None? {
        return Fail;
      }
      var computed := bind(reply.metadata, root.value);
      if computed != fileHash {
        return Fail;
      }
      metadata := Some(reply.metadata);
      tree := seq(TreeSizeFor(reply.metadata), _ => Unknown);
      tree := tree[0 := Validated(root.value)];
      FreshTree(combine, tree);
      result := NewData;
    }

    function Depth(): nat
      requires metadata.Some?
      reads this
    {
      TreeDepth(NumBlocks(fileLength(metadata.value)))
    }

    /**
      A piece can be taken: it is in the file, in the payload and under a known leaf; its block has it already or
      lacks just what it begins with; and if it makes the block whole, the hash is right.
     */
    ghost predicate Takes(reply: Reply<Metadata, Hash>, next: nat, end: nat)
      requires metadata.Some? && reply.dataStart <= next < end
      reads this
    {
      var block, start, offset := next / BLOCK_SIZE, next % BLOCK_SIZE, next - reply.dataStart;
      var leaf := LeafLocation(Depth(), block);
      var takes :=
        && block < NumBlocks(fileLength(metadata.value)) && offset <= |reply.payload| && Known(tree, leaf)
        && Fits(hashBlock, tree[leaf].hash, Have(tree[leaf].hash).data, start,
                Sent(reply.payload, offset, end - next), EndsFile(next, end));
      takes
    }

    /** No more data will come for the block: the piece ends the file. */
    predicate EndsFile(next: nat, end: nat)
      requires metadata.Some?
      reads this
    {
      next / BLOCK_SIZE == NumBlocks(fileLength(metadata.value)) - 1 && end == fileLength(metadata.value)
    }

    /** One turn of `install_data`: the bytes from `next` to the end of the block or of the data. */
    method InstallPiece(reply: Reply<Metadata, Hash>, next: nat) returns (ok: bool, changed: bool, end: nat)
      requires metadata.Some? && |tree| == TreeSizeFor(metadata.value) && BlocksOk(hashBlock, blocks)
      requires reply.dataStart <= next < reply.dataEnd
      modifies this`blocks
      ensures BlocksOk(hashBlock, blocks) && BlocksGrow(old(blocks), blocks)
      ensures next < end <= reply.dataEnd && end <= (next / BLOCK_SIZE + 1) * BLOCK_SIZE
      ensures end == reply.dataEnd || end == (next / BLOCK_SIZE + 1) * BLOCK_SIZE
      ensures ok <==> old(Takes(reply, next, end))
      ensures ok ==> Taken(tree, Depth(), next, end, PieceEnd(next, end, EndsFile(next, end)), changed,
                           old(blocks), blocks, reply.dataStart, reply.dataEnd, reply.payload)
      ensures changed ==> blocks != old(blocks)
      ensures ok ==>
        Sized(tree, Depth(), next, end, end == fileLength(metadata.value) && next / BLOCK_SIZE + 1 == NumBlocks(end),
              old(blocks), blocks)
    {
      ok, changed := false, false;
      var blockEnd := (next / BLOCK_SIZE + 1) * BLOCK_SIZE;
      end := if blockEnd < reply.dataEnd then blockEnd else reply.dataEnd;
      var name := BlockFor(reply, next);
      TakesIf(reply, next, end, name);
      if name.None? {
        return;
      }
      PieceInBlock(next, end);
      var last := EndsFile(next, end);
      var bytes := Sent(reply.payload, next - reply.dataStart, end - next);
      ok, changed := PutPiece(name.value, next % BLOCK_SIZE, bytes, last);
      if ok {
        FilledSized(hashBlock, tree, Depth(), name.value, next, end, bytes, last, old(blocks), blocks);
        TakenPiece(tree, Depth(), name.value, next, end, last, changed, old(blocks), blocks,
                   reply.dataStart, reply.dataEnd, reply.payload);
      }
    }

    lemma TakesIf(reply: Reply<Metadata, Hash>, next: nat, end: nat, name: Option<Hash>)
      requires metadata.Some? && reply.dataStart <= next < end
      requires name.Some? <==>
        && next / BLOCK_SIZE < NumBlocks(fileLength(metadata.value)) && next - reply.dataStart <= |reply.payload|
        && Known(tree, LeafLocation(Depth(), next / BLOCK_SIZE))
      requires name.Some? ==> InCell(tree, Depth(), next, name.value, next % BLOCK_SIZE)
      ensures Takes(reply, next, end) <==>
        && name.Some?
        && Fits(hashBlock, name.value, Have(name.value).data, next % BLOCK_SIZE,
                Sent(reply.payload, next - reply.dataStart, end - next), EndsFile(next, end))
    {}

    /** The name of the block that a byte belongs to; none if it is past the file or the payload, or not known. */
    method BlockFor(reply: Reply<Metadata, Hash>, next: nat) returns (name: Option<Hash>)
      requires metadata.Some? && |tree| == TreeSizeFor(metadata.value) && reply.dataStart <= next
      ensures name.Some? <==>
        && next / BLOCK_SIZE < NumBlocks(fileLength(metadata.value)) && next - reply.dataStart <= |reply.payload|
        && Known(tree, LeafLocation(Depth(), next / BLOCK_SIZE))
      ensures name.Some? ==> InCell(tree, Depth(), next, name.value, next % BLOCK_SIZE)
      ensures name.Some? ==> var leaf := |tree| / 2 + next / BLOCK_SIZE;
        leaf < |tree| && (tree[leaf] == Tentative(name.value) || tree[leaf] == Validated(name.value))
    {
      TreeSizeIs(metadata.value);
      var numBlocks := NumBlocks(fileLength(metadata.value));
      var block := next / BLOCK_SIZE;
      if block >= numBlocks || next - reply.dataStart > |reply.payload| {
        return None;
      }
      LeafInTree(numBlocks, block);
      var leaf := LeafLocation(Depth(), block);
      return if tree[leaf].Unknown? then None else Some(tree[leaf].hash);
    }

    function Have(name: Hash): Block
      reads this
    {
      if name in blocks then blocks[name] else Block([], false)
    }

    /** The piece goes to the block with this name, which is begun if there is none. */
    method PutPiece(name: Hash, start: nat, bytes: seq<Byte>, last: bool) returns (ok: bool, changed: bool)
      requires BlocksOk(hashBlock, blocks) && start + |bytes| <= BLOCK_SIZE && |bytes| > 0
      modifies this`blocks
      ensures BlocksOk(hashBlock, blocks) && BlocksGrow(old(blocks), blocks)
      ensures ok <==> Fits(hashBlock, name, old(Have(name).data), start, bytes, last)
      ensures ok ==> name in blocks && start + |bytes| <= |blocks[name].data|
      ensures ok ==> blocks == old(blocks)[name := blocks[name]]
      ensures ok ==> Filled(old(HaveIn(blocks, name)), start, bytes, last, blocks[name].data)
      ensures ok ==> (changed <==> start >= |old(Have(name).data)|)
      ensures ok && !changed ==> start + |bytes| <= |old(Have(name).data)|
      ensures changed ==> blocks != old(blocks)
      ensures ok && !changed && (!last || start + |bytes| == BLOCK_SIZE) ==> blocks == old(blocks)
    {
      var b := Have(name);
      TakingExact(hashBlock, name, b, start, bytes, last);
      var taken := Taking(hashBlock, name, b, start, bytes, last);
      if taken.None? {
        return false, false;
      }
      ok, changed := true, taken.value.1;
      FitsFilled(hashBlock, name, b.data, start, bytes, last);
      BlocksPut(hashBlock, blocks, name, taken.value.0);
      blocks := blocks[name := taken.value.0];
    }

    /** Where the data ends, with the zeros that complete the last block of the file. */
    ghost function DataReach(reply: Reply<Metadata, Hash>): nat
      requires metadata.Some?
      reads this
    {
      if reply.dataEnd <= reply.dataStart then reply.dataStart
      else PieceEnd(reply.dataEnd - 1, reply.dataEnd, EndsFile(reply.dataEnd - 1, reply.dataEnd))
    }

    /** The data of the reply is delivered into the blocks. */
    ghost predicate DeliveredBy(reply: Reply<Metadata, Hash>, blocks0: map<Hash, Block>)
      requires metadata.Some?
      reads this
    {
      Delivered(tree, Depth(), blocks0, blocks, reply.dataStart, reply.dataEnd, DataReach(reply), reply.payload)
    }

    /** `install_data`: block by block; stops short where one of its assertions fails or the payload ends too early. */
    method InstallData(reply: Reply<Metadata, Hash>) returns (ok: bool, changed: bool)
      requires Valid() && metadata.Some?
      modifies this`blocks
      ensures Valid() && BlocksGrow(old(blocks), blocks)
      ensures ok ==> DeliveredBy(reply, old(blocks))
      ensures reply.dataEnd <= reply.dataStart ==> ok && !changed && blocks == old(blocks)
      ensures ok ==> (changed <==> !AllArrived(tree, old(blocks), Depth(), reply.dataStart, reply.dataEnd))
      ensures changed ==> blocks != old(blocks)
    {
      ok, changed := true, false;
      var next := reply.dataStart;
      ghost var reach := next;
      NothingTold(tree, Depth(), blocks, next, reply.dataEnd, reply.payload);
      while next < reply.dataEnd
        invariant ok && Valid() && BlocksGrow(old(blocks), blocks)
        invariant reply.dataStart <= next && (reply.dataStart < reply.dataEnd ==> next <= reply.dataEnd)
        invariant AllArrived(tree, blocks, Depth(), reply.dataStart, next)
        invariant next < reply.dataEnd ==> reach == next
        invariant next >= reply.dataEnd ==> reach == DataReach(reply)
        invariant reach >= next
        invariant AsTold(tree, Depth(), old(blocks), blocks, reply.dataStart, reach, reply.dataEnd, reply.payload)
        invariant NothingElse(tree, Depth(), old(blocks), blocks, reply.dataStart, reach)
        invariant next == reply.dataStart ==> blocks == old(blocks)
        invariant reply.dataEnd <= reply.dataStart ==> next == reply.dataStart
        invariant !changed && next < reply.dataEnd ==> blocks == old(blocks)
        invariant changed <==> !AllArrived(tree, old(blocks), Depth(), reply.dataStart, next)
        invariant changed ==> blocks != old(blocks)
        decreases reply.dataEnd - next
      {
        ghost var before, from, was := blocks, next, changed;
        var more, end;
        ok, more, end := InstallPiece(reply, next);
        changed := changed || more;
        GrowTrans(hashBlock, old(blocks), before, blocks);
        if !ok {
          return;
        }
        next := end;
        reach := PieceEnd(from, end, EndsFile(from, end));
        InstalledOn(reply, old(blocks), before, from, end, was, more);
      }
      NothingToArrive(tree, old(blocks), Depth(), reply.dataStart, reply.dataEnd);
      DeliveredAll(tree, Depth(), old(blocks), blocks, reply.dataStart, reply.dataEnd, DataReach(reply), reply.payload);
    }

    /** One more piece installed. */
    lemma InstalledOn(reply: Reply<Metadata, Hash>, blocks0: map<Hash, Block>, before: map<Hash, Block>,
                      next: nat, end: nat, was: bool, more: bool)
      requires metadata.Some? && reply.dataStart <= next < end <= reply.dataEnd
      requires end == reply.dataEnd || end == (next / BLOCK_SIZE + 1) * BLOCK_SIZE
      requires end <= (next / BLOCK_SIZE + 1) * BLOCK_SIZE && BlocksGrow(before, blocks)
      requires AllArrived(tree, before, Depth(), reply.dataStart, next)
      requires Taken(tree, Depth(), next, end, PieceEnd(next, end, EndsFile(next, end)), more,
                     before, blocks, reply.dataStart, reply.dataEnd, reply.payload)
      requires AsTold(tree, Depth(), blocks0, before, reply.dataStart, next, reply.dataEnd, reply.payload)
      requires NothingElse(tree, Depth(), blocks0, before, reply.dataStart, next)
      requires (was <==> !AllArrived(tree, blocks0, Depth(), reply.dataStart, next)) && (!was ==> before == blocks0)
      ensures AllArrived(tree, blocks, Depth(), reply.dataStart, end)
      ensures was || more <==> !AllArrived(tree, blocks0, Depth(), reply.dataStart, end)
      ensures !was && !more && end < reply.dataEnd ==> blocks == blocks0
      ensures var reach := PieceEnd(next, end, EndsFile(next, end));
              && AsTold(tree, Depth(), blocks0, blocks, reply.dataStart, reach, reply.dataEnd, reply.payload)
              && NothingElse(tree, Depth(), blocks0, blocks, reply.dataStart, reach)
              && (end < reply.dataEnd ==> reach == end) && (end == reply.dataEnd ==> reach == DataReach(reply))
    {
      ArrivedOn(tree, before, tree, blocks, Depth(), reply.dataStart, next);
      ArrivedMore(tree, blocks, Depth(), reply.dataStart, next, end);
      ChangeOn(tree, Depth(), blocks0, before, reply.dataStart, next, end, was, more);
      var n, reach := tree[LeafLocation(Depth(), next / BLOCK_SIZE)].hash, PieceEnd(next, end, EndsFile(next, end));
      PutAsTold(tree, Depth(), n, blocks0, before, blocks, reply.dataStart, next, reach, reply.dataEnd, reply.payload);
      PutElse(tree, Depth(), n, blocks0, before, blocks, reply.dataStart, next, reach, reply.dataEnd, reply.payload);
      OneBlock(next, end - 1);
    }

    function TreeSizeAfter(reply: Reply<Metadata, Hash>): nat
      reads this
    {
      if metadata.Some? then |tree| else TreeSizeFor(reply.metadata)
    }

    /** The first half of `install_reply`: metadata, then records; `failed` if there is no metadata to go by. */
    method InstallHashes(reply: Reply<Metadata, Hash>) returns (failed: bool, ok: bool, causedChange: bool)
      requires Valid() && AtRest()
      requires forall r :: r in reply.records ==> r.0 < TreeSizeAfter(reply)
      modifies this`metadata, this`tree, this`parentsOfTentative
      ensures Valid() && (failed <==> metadata.None?) && (failed ==> !causedChange)
      ensures old(metadata).Some? ==> metadata == old(metadata) && OnlyMarks(old(tree), tree)
      ensures old(metadata).None? ==> metadata == if Genuine(reply) then Some(reply.metadata) else None
      ensures metadata.Some? ==> Accounted(combine, old(tree), tree, reply.records)
      ensures metadata.Some? && ok ==> forall r :: r in reply.records ==> Known(tree, r.0)
      ensures metadata.Some? ==> (ok <==> !exists r :: r in reply.records && Contradicts(tree, r))
      ensures old(metadata).None? && metadata.Some? ==> IsRoot(reply.records, tree[0].hash)
      ensures causedChange <==> tree != old(tree)
      ensures !causedChange ==> AtRest()
    {
      failed, ok, causedChange := false, true, false;
      var ir := InstallMetadata(reply);
      if ir == Fail {
        failed := true;
        return;
      }
      ghost var begun := tree;
      assert Accounted(combine, old(tree), begun, reply.records);
      ok, causedChange := InstallMerkleRecords(reply.records);
      OnlyMarksKeeps(begun, tree);
      AccountedAll(combine, old(tree), begun, tree, reply.records);
      assert forall r :: r in reply.records ==> (Contradicts(tree, r) <==> Contradicts(begun, r));
      causedChange := causedChange || ir == NewData;
    }

    /** `install_reply`, with the records' locations inside the tree; `ok` unless it stops short. */
    method InstallReply(reply: Reply<Metadata, Hash>) returns (ok: bool, causedChange: bool)
      requires Valid() && AtRest()
      requires forall r :: r in reply.records ==> r.0 < TreeSizeAfter(reply)
      modifies this
      ensures Valid() && (ok ==> AtRest())
      ensures old(metadata).Some? ==> metadata == old(metadata) && Keeps(old(tree), tree)
      ensures old(metadata).None? ==> metadata == if Genuine(reply) then Some(reply.metadata) else None
      ensures old(metadata).None? && metadata.Some? ==> IsRoot(reply.records, tree[0].hash)
      ensures metadata.None? ==> ok && !causedChange && tree == old(tree) && blocks == old(blocks)
      ensures metadata.Some? ==> Accounted(combine, old(tree), tree, reply.records)
      ensures metadata.Some? && ok ==> forall r :: r in reply.records ==> Known(tree, r.0)
      ensures metadata.Some? && ok ==> DeliveredBy(reply, old(blocks))
      ensures BlocksGrow(old(blocks), blocks)
      ensures old(metadata).Some? && ok ==> forall r :: r in reply.records ==> !Contradicts(old(tree), r)
      ensures !ok && reply.dataEnd <= reply.dataStart ==> exists r :: r in reply.records && Contradicts(tree, r)
      ensures ok && metadata.Some? ==>
        (causedChange <==>
           tree != old(tree) || !AllArrived(tree, old(blocks), Depth(), reply.dataStart, reply.dataEnd))
      ensures ok && causedChange ==> tree != old(tree) || blocks != old(blocks)
      ensures ok ==> progressCounter == old(progressCounter) + if causedChange then 1 else 0
    {
      var failed, changed;
      failed, ok, causedChange := InstallHashes(reply);
      if failed {
        return true, false;
      }
      ghost var marked := tree;
      assert old(metadata).Some? ==> Keeps(old(tree), marked);
      if !ok {
        return;
      }
      ok, changed := InstallData(reply);
      causedChange := causedChange || changed;
      if !ok {
        return;
      }
      var ir := ValidateTentativeHashes();
      SameHashesKeeps(marked, tree);
      KeepsTrans(old(tree), marked, tree);
      AccountedSame(combine, old(tree), marked, tree, reply.records);
      DeliveredSame(marked, tree, Depth(), old(blocks), blocks, reply.dataStart, reply.dataEnd, DataReach(reply),
                    reply.payload);
      if ir == NewData {
        assert causedChange;
      }
      if causedChange {
        progressCounter := progressCounter + 1;
      }
    }

    /** A whole block under a leaf validated all the way up leads, hashed, to the hash the file is named by. */
    lemma BlockLeadsToFileHash(block: nat)
      requires Valid() && metadata.Some? && PathValidated(tree, LeafLocation(Depth(), block))
      requires var name := tree[LeafLocation(Depth(), block)].hash; name in blocks && blocks[name].valid
      ensures PathKnown(tree, LeafLocation(Depth(), block))
      ensures var leaf := LeafLocation(Depth(), block);
        var data := blocks[tree[leaf].hash].data;
        |data| == BLOCK_SIZE && bind(metadata.value, Recompute(combine, tree, leaf, hashBlock(data))) == fileHash
    {
      LeadsToFileHash(LeafLocation(Depth(), block));
    }

    /** A node validated all the way up leads to the hash the file is named by. */
    lemma LeadsToFileHash(loc: nat)
      requires Valid() && metadata.Some? && PathValidated(tree, loc)
      ensures PathKnown(tree, loc) && bind(metadata.value, Recompute(combine, tree, loc, tree[loc].hash)) == fileHash
    {
      PathAuthentic(combine, tree, parentsOfTentative, loc);
      AuthenticRecomputes(combine, tree, loc);
    }
  }

  /** Two caches of one file agree on a node validated all the way up, or show a collision of one of the hashes. */
  lemma CachesAgree<Metadata, Hash>(f: CachedFile<Metadata, Hash>, g: CachedFile<Metadata, Hash>, loc: nat)
    returns (p: (Hash, Hash), q: (Hash, Hash), a: (Metadata, Hash), b: (Metadata, Hash))
    requires f.combine == g.combine && f.bind == g.bind && f.fileHash == g.fileHash
    requires f.Valid() && f.metadata.Some? && PathValidated(f.tree, loc)
    requires g.Valid() && g.metadata.Some? && PathValidated(g.tree, loc)
    ensures || (f.metadata == g.metadata && f.tree[loc].hash == g.tree[loc].hash)
            || Collide(f.combine, p, q) || Collide(f.bind, a, b)
  {
    PathAuthentic(f.combine, f.tree, f.parentsOfTentative, loc);
    PathAuthentic(g.combine, g.tree, g.parentsOfTentative, loc);
    p, q := (f.fileHash, f.fileHash), (f.fileHash, f.fileHash);
    a, b := (f.metadata.value, f.tree[0].hash), (g.metadata.value, g.tree[0].hash);
    if a == b {
      p, q := AuthenticUnique(f.combine, f.tree, g.tree, loc);
    }
  }

  /** A validated node under a parent that is only tentative need not be authentic: such a node can be reached. */
  method ValidatedYetUnchecked<Metadata, Hash(==)>(file: CachedFile<Metadata, Hash>, m: Metadata,
                                                   root: Hash, a: Hash, b: Hash)
    requires file.Valid() && file.AtRest() && file.metadata == None
    requires file.bind(m, root) == file.fileHash && file.TreeSizeFor(m) == 7
    modifies file
    ensures file.Valid() && file.AtRest()
    ensures |file.tree| == 7 && file.tree[3].Validated? && file.tree[3].hash == a
    ensures !PathValidated(file.tree, 3) && !Authentic(file.combine, file.tree, 3)
  {
    var records := [(0, root), (3, a), (4, b)];
    assert file.FirstRoot(records, 0);
    var ok, _ := file.InstallReply(Reply(m, records, 0, 0, []));
    var t := file.tree;
    assert forall i :: file.FirstRoot(records, i) ==> i == 0;
    assert forall r :: r in records && r.0 == 0 ==> r.1 == root;
    assert (3, a) in records && (4, b) in records;
    OneBranch(file.combine, t, root, a, b);
  }

  /** Two blocks named alike are one block: what is sent for the second is not looked at. */
  method SecondCopyUnread<Metadata, Hash(==)>(file: CachedFile<Metadata, Hash>, reply: Reply<Metadata, Hash>)
    requires file.Valid() && file.metadata.Some? && file.blocks == map[]
    requires NumBlocks(file.fileLength(file.metadata.value)) == 2
    requires SameCell(file.tree, file.Depth(), 0, BLOCK_SIZE)
    requires reply.dataStart == 0 && reply.dataEnd == |reply.payload| == 2 * BLOCK_SIZE
    requires file.hashBlock(reply.payload[0..BLOCK_SIZE]) == file.tree[LeafLocation(file.Depth(), 0)].hash
    requires reply.payload[0] != reply.payload[BLOCK_SIZE]
    modifies file`blocks
    ensures Arrived(file.tree, file.blocks, file.Depth(), BLOCK_SIZE)
    ensures ByteAt(file.tree, file.blocks, file.Depth(), BLOCK_SIZE) != reply.payload[BLOCK_SIZE]
  {
    var name := file.tree[LeafLocation(file.Depth(), 0)].hash;
    file.TakesIf(reply, 0, BLOCK_SIZE, Some(name));
    FitsWhole(file.hashBlock, name, Sent(reply.payload, 0, BLOCK_SIZE));
    var ok, changed, end := file.InstallPiece(reply, 0);
    PutWhole(name, file.blocks, reply.dataEnd, reply.payload);
    file.TakesIf(reply, BLOCK_SIZE, 2 * BLOCK_SIZE, Some(name));
    FitsAgain(file.hashBlock, name, file.Have(name).data, Sent(reply.payload, BLOCK_SIZE, BLOCK_SIZE),
              file.EndsFile(BLOCK_SIZE, 2 * BLOCK_SIZE));
    ghost var before := file.blocks;
    ok, changed, end := file.InstallPiece(reply, BLOCK_SIZE);
    assert before[name].data <= file.blocks[name].data;
  }

  /** Knowing just the root and one pair of leaves leaves the pair's parent tentative. */
  lemma OneBranch<Hash>(h: (Hash, Hash) -> Hash, t: Tree<Hash>, root: Hash, a: Hash, b: Hash)
    requires Sound(h, t, {}) && |t| == 7
    requires Accounted(h, [], t, [(0, root), (3, a), (4, b)])
    requires Known(t, 3) && Known(t, 4)
    ensures t[3].Validated? && t[3].hash == a
    ensures !PathValidated(t, 3) && !Authentic(h, t, 3)
  {
    OneBranchUnknown(h, t, [(0, root), (3, a), (4, b)]);
    assert Known(t, 3) && !Matches(h, t, 3);
    assert BothKnown(t, 1);
    assert Known(t, 1) && Matches(h, t, 1);
    assert Parent(3) == 1 && Parent(1) == 0;
    assert !Authentic(h, t, 1);
    assert !Authentic(h, t, 3);
    PathIff(h, t, 3);
  }

  lemma OneBranchUnknown<Hash>(h: (Hash, Hash) -> Hash, t: Tree<Hash>, sent: seq<(nat, Hash)>)
    requires |t| == 7 && Accounted(h, [], t, sent)
    requires forall r :: r in sent ==> r.0 == 0 || r.0 == 3 || r.0 == 4
    ensures !Known(t, 2) && !Matches(h, t, 0) && !Matches(h, t, 3)
  {
    assert !Matches(h, t, 5) && !Matches(h, t, 6);
    assert !Known(t, 5) && !Known(t, 6);
    assert !Matches(h, t, 2);
    assert !Known(t, 2);
  }

  method PickAny<T(==)>(s: set<T>) returns (x: T)
    requires s != {}
    ensures x in s
  {
    x :| x in s;
  }

  lemma FreshTree<Hash>(h: (Hash, Hash) -> Hash, t: Tree<Hash>)
    requires |t| % 2 == 1 && t[0].Validated? && forall i :: 0 < i < |t| ==> t[i].Unknown?
    ensures Sound(h, t, {})
  {}

  lemma AccountedAll<Hash>(h: (Hash, Hash) -> Hash, t: Tree<Hash>, u: Tree<Hash>, v: Tree<Hash>, sent: seq<(nat, Hash)>)
    requires Keeps(u, v) && Accounted(h, t, u, sent) && Accounted(h, u, v, sent)
    ensures Accounted(h, t, v, sent)
  {}

  lemma AccountedSame<Hash>(h: (Hash, Hash) -> Hash, t: Tree<Hash>, u: Tree<Hash>, v: Tree<Hash>,
                            sent: seq<(nat, Hash)>)
    requires SameHashes(u, v) && Accounted(h, t, u, sent)
    ensures Accounted(h, t, v, sent)
  {}

  lemma KeepsTrans<Hash>(t: Tree<Hash>, u: Tree<Hash>, v: Tree<Hash>)
    requires Keeps(u, v)
    ensures Keeps(t, u) ==> Keeps(t, v)
  {}

  lemma SameHashesKeeps<Hash>(t: Tree<Hash>, t': Tree<Hash>)
    requires SameHashes(t, t') && forall i: nat :: i < |t| && t[i].Validated? ==> t'[i].Validated?
    ensures Keeps(t, t')
  {}

  lemma SameHashesTrans<Hash>(t: Tree<Hash>, u: Tree<Hash>, v: Tree<Hash>)
    requires SameHashes(t, u) && SameHashes(u, v)
    ensures SameHashes(t, v)
  {}
}
