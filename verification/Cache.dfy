// The block cache (src/lib/common/cdi/cache.c) on top of the AVL tree.

module BlockCache {
  import opened TreeShape
  import opened TyndurTree

  type Data = seq<bv8>

  const INVBLKNUM: Key := 0xFFFF_FFFF
  const READBUF_SZ: nat := 128
  const HINTCNT: nat := 8
  const BLOCK_COUNT: nat := 256

  /** uint16_t, the width of ref_count. */
  const COUNTS: nat := 0x1_0000
  type Count = x: nat | x < COUNTS

  /** The medium below the cache and its two callbacks. Reading may fail, writing succeeds. */
  class Device {
    var blocks: Key -> Data

    constructor (blocks: Key -> Data)
      ensures this.blocks == blocks
    {
      this.blocks := blocks;
    }

    /** Delivers as many of the wanted blocks as the medium cares to, and none if reading fails. */
    method ReadBlocks(block: Key) returns (buffer: seq<Data>)
      ensures |buffer| <= READBUF_SZ && block + |buffer| <= KEY_COUNT
      ensures forall i :: 0 <= i < |buffer| ==> buffer[i] == blocks(block + i)
    {
      var count: nat :| count <= READBUF_SZ && block + count <= KEY_COUNT;
      var medium := blocks;
      buffer := seq(count, i requires 0 <= i < count => medium(block + i));
    }

    method WriteBlock(block: Key, data: Data)
      modifies this
      ensures forall n: Key :: blocks(n) == if n == block then data else old(blocks)(n)
    {
      var medium := blocks;
      blocks := (n: Key) => if n == block then data else medium(n);
    }
  }

  class Block {
    const treeItem: Item
    var data: Data
    var refCount: Count
    var dirty: bool
    var lruNext: Block?
    var lruPrev: Block?

    /** A block as lines 405-409 make it: zeroed, with its number set. */
    constructor (number: Key, data: Data)
      ensures this.data == data && refCount == 0 && !dirty && lruNext == null && lruPrev == null
      ensures fresh(treeItem) && treeItem.key == number && treeItem.node == this
    {
      this.data := data;
      refCount, dirty := 0, false;
      lruNext, lruPrev := null, null;
      treeItem := new Item(number);
      new;
      treeItem.node := this;
    }
  }

  // ----- the list ordered by last use, oldest first -----

  ghost function BlockSet(c: seq<Block>): set<Block> { set b | b in c }

  ghost predicate NoDuplicates(c: seq<Block>) {
    forall i, j :: 0 <= i < j < |c| ==> c[i] != c[j]
  }

  ghost predicate ChainedAt(c: seq<Block>, i: nat)
    requires i < |c|
    reads var b: Block := c[i]; {b}`lruNext
    reads var b: Block := c[i]; {b}`lruPrev
  {
    && c[i].lruPrev == (if i + 1 < |c| then c[i + 1] else null)
    && c[i].lruNext == (if i > 0 then c[i - 1] else null)
  }

  ghost predicate Chained(c: seq<Block>)
    reads BlockSet(c)`lruNext, BlockSet(c)`lruPrev
  {
    forall i {:trigger ChainedAt(c, i)} :: 0 <= i < |c| ==> ChainedAt(c, i)
  }

  /** c without its pos-th element, if it has one. */
  ghost function Without(c: seq<Block>, pos: int): seq<Block>
    requires -1 <= pos < |c|
  {
    if pos < 0 then c else c[..pos] + c[pos + 1..]
  }

  /** c with its pos-th element moved to the end, or with b appended. */
  ghost function Moved(c: seq<Block>, b: Block, pos: int): seq<Block>
    requires -1 <= pos < |c|
  {
    Without(c, pos) + [b]
  }

  lemma MovedIsDistinct(c: seq<Block>, b: Block, pos: int)
    requires -1 <= pos < |c| && NoDuplicates(c)
    requires if pos < 0 then b !in c else c[pos] == b
    ensures NoDuplicates(Moved(c, b, pos))
    ensures BlockSet(Moved(c, b, pos)) == BlockSet(c) + {b}
    ensures |Moved(c, b, pos)| == if pos < 0 then |c| + 1 else |c|
  {
    var d := Moved(c, b, pos);
    forall i | 0 <= i < |d|
      ensures d[i] == if i == |d| - 1 then b else c[if pos < 0 || i < pos then i else i + 1]
    {
    }
    forall x | x in c
      ensures x in d
    {
      var i :| 0 <= i < |c| && c[i] == x;
      if i == pos {
        assert d[|d| - 1] == x;
      } else if pos < 0 || i < pos {
        assert d[i] == x;
      } else {
        assert d[i - 1] == x;
      }
    }
    forall x | x in d
      ensures x in c || x == b
    {
    }
    assert d[|d| - 1] == b;
  }

  ghost function Only(b: Block?): set<Block> { if b == null then {} else {b} }

  /** What a client that holds a block sees of it. */
  datatype Handle = Handle(number: Key, data: Data, refs: nat)

  ghost function DirtyOf(blocks: set<Block>): set<Block>
    reads blocks`dirty
  {
    set b | b in blocks && b.dirty
  }

  /** No block has become dirty; one that is not dirty any more has reached the medium with its data, which
      has not changed anywhere else. */
  ghost predicate WrittenBack(dirty: set<Block>, was: map<Block, Handle>, medium: Key -> Data, dirty': set<Block>,
                              medium': Key -> Data)
  {
    && dirty' <= dirty
    && (forall b :: b in dirty ==> b in dirty' || (b in was && medium'(was[b].number) == was[b].data))
    && (forall m: Key :: medium'(m) == medium(m)
          || exists b :: b in dirty && b in was && was[b].number == m && medium'(m) == was[b].data)
  }

  lemma NothingWritten(dirty: set<Block>, was: map<Block, Handle>, medium: Key -> Data)
    ensures WrittenBack(dirty, was, medium, dirty, medium)
  {
  }

  /** What a client asks for that holds no block in between. */
  datatype Command = Read(number: Key) | Write(number: Key, data: Data) | Sync

  /** A memory of blocks: what block n holds after the commands. */
  function Value(memory: Key -> Data, cmds: seq<Command>, n: Key): Data {
    if cmds == [] then memory(n)
    else
      var last := cmds[|cmds| - 1];
      if last.Write? && last.number == n then last.data else Value(memory, cmds[..|cmds| - 1], n)
  }

  /** What the memory answers. */
  function Answers(memory: Key -> Data, cmds: seq<Command>): seq<Data> {
    if cmds == [] then []
    else
      var before, last := cmds[..|cmds| - 1], cmds[|cmds| - 1];
      Answers(memory, before) + if last.Read? then [Value(memory, before, last.number)] else []
  }

  predicate NoneHeld(handles: map<Block, Handle>) { forall b :: b in handles ==> handles[b].refs == 0 }

  ghost function ItemsOf(blocks: set<Block>): set<Item> { set b | b in blocks :: b.treeItem }

  ghost predicate IndexedBy(items: set<Item>, blocks: set<Block>)
    reads items`node
  {
    && (forall b :: b in blocks ==> b.treeItem in items && b.treeItem.node == b)
    && (forall x :: x in items ==> x.node is Block && (x.node as Block) in blocks && (x.node as Block).treeItem == x)
  }

  class Cache {
    const device: Device
    const tree: Tree
    var blocksUsed: nat

    var lruFirst: Block?
    var lruLast: Block?

    var readBuffer: seq<Data>
    var readBufferBlock: Key
    var readBufferCnt: nat

    const hints: array<Block?>
    var prevHint: nat

    /** The blocks in the tree. */
    ghost var blocks: set<Block>

    /** The blocks in the order of their last use, oldest first. */
    ghost var lru: seq<Block>

    /** The medium as the clients see it. */
    ghost var image: Key -> Data

    /** The tree holds exactly the tree items of the blocks. */
    ghost predicate Indexed()
      reads this`blocks, tree`shape, Items(tree.shape)`node
    {
      IndexedBy(Items(tree.shape), blocks)
    }

    ghost predicate Hinted()
      reads this`blocks, this`prevHint, hints
    {
      && hints.Length == HINTCNT && prevHint < HINTCNT
      && (forall i :: 0 <= i < hints.Length && hints[i] != null ==> hints[i] in blocks)
    }

    ghost predicate NewestHint(b: Block)
      reads this`prevHint, hints
    {
      prevHint < hints.Length && hints[prevHint] == b
    }

    /** The read-ahead buffer agrees with the medium on the range it claims to hold. */
    ghost predicate Buffered()
      reads this`readBuffer, this`readBufferBlock, this`readBufferCnt, device
    {
      && |readBuffer| == READBUF_SZ && readBufferCnt <= READBUF_SZ && readBufferBlock + readBufferCnt <= KEY_COUNT
      && (readBufferBlock != INVBLKNUM ==>
            forall i :: 0 <= i < readBufferCnt ==> readBuffer[i] == device.blocks(readBufferBlock + i))
    }

    /** A block that nobody holds and that is not marked dirty equals the medium. */
    ghost predicate CleanBut(skip: Block?)
      reads this`blocks, blocks`refCount, blocks`dirty, blocks`data, ItemsOf(blocks)`key, device
    {
      forall b :: b in blocks && b != skip && b.refCount == 0 && !b.dirty ==> b.data == device.blocks(b.treeItem.key)
    }

    ghost predicate Cached(n: Key)
      reads this`blocks, ItemsOf(blocks)`key
    {
      exists b :: b in blocks && b.treeItem.key == n
    }

    /** The image shows the cached data where there is some, and the medium elsewhere. */
    ghost predicate ShowsBut(skip: Block?)
      reads this`blocks, this`image, blocks`data, ItemsOf(blocks)`key, device
    {
      && (forall b :: b in blocks && b != skip ==> image(b.treeItem.key) == b.data)
      && (forall n: Key :: !Cached(n) ==> image(n) == device.blocks(n))
    }

    ghost function Handles(): map<Block, Handle>
      reads this`blocks, blocks`refCount, blocks`data, ItemsOf(blocks)`key
    {
      map b | b in blocks :: Handle(b.treeItem.key, b.data, b.refCount)
    }

    /** The blocks that are marked as changed. */
    ghost function Dirty(): set<Block>
      reads this`blocks, blocks`dirty
    {
      DirtyOf(blocks)
    }

    ghost predicate Core()
      reads this`blocks, this`prevHint, this`readBuffer, this`readBufferBlock, this`readBufferCnt, hints, device
      reads tree, Items(tree.shape)
    {
      tree.Valid() && Indexed() && Hinted() && Buffered()
    }

    /** The list holds exactly the blocks of the cache. */
    ghost predicate Listed()
      reads this`blocks, this`blocksUsed, this`lru, this`lruFirst, this`lruLast
      reads BlockSet(lru)`lruNext, BlockSet(lru)`lruPrev
    {
      LruValid() && BlockSet(lru) == blocks && blocksUsed == |lru| <= BLOCK_COUNT
    }

    ghost predicate Valid()
      reads this, hints, device, tree, Items(tree.shape), blocks, BlockSet(lru), ItemsOf(blocks)
    {
      Consistent() && Listed()
    }

    /** Lines 131-173: an empty cache shows the medium as it is. */
    constructor (device: Device)
      ensures Valid() && lru == [] && blocks == {} && this.device == device && fresh(hints) && fresh(tree)
      ensures image == device.blocks
    {
      this.device := device;
      tree := new Tree();
      blocksUsed := 0;
      lruFirst, lruLast := null, null;
      readBuffer := seq(READBUF_SZ, _ => []);
      readBufferBlock, readBufferCnt := INVBLKNUM, 0;
      hints := new Block?[HINTCNT](_ => null);
      prevHint := 0;
      blocks, lru := {}, [];
      image := device.blocks;
    }

    lemma KeysDistinct(b: Block, c: Block)
      requires tree.Valid() && Indexed() && b in blocks && c in blocks && b.treeItem.key == c.treeItem.key
      ensures b == c
    {
      ItemsInOrder(tree.shape);
    }

    // ----- looking a block up -----

    /** Lines 319-330. */
    method GetHint(block: Key) returns (b: Block?)
      requires Hinted()
      ensures b != null ==> b in blocks && b in hints[..] && b.treeItem.key == block
      ensures b == null ==> forall i :: 0 <= i < HINTCNT && hints[i] != null ==> hints[i].treeItem.key != block
    {
      for i := 0 to HINTCNT
        invariant forall j :: 0 <= j < i && hints[j] != null ==> hints[j].treeItem.key != block
      {
        var hint := hints[i];
        if hint != null && hint.treeItem.key == block {
          return hint;
        }
      }
      return null;
    }

    /** Lines 338-343: the block takes the place of the oldest of the eight hints. */
    method PutHint(b: Block)
      requires Hinted() && b in blocks
      modifies this`prevHint, hints
      ensures Hinted() && prevHint == (old(prevHint) + 1) % HINTCNT && hints[prevHint] == b
      ensures forall i :: 0 <= i < HINTCNT && i != prevHint ==> hints[i] == old(hints[i])
    {
      prevHint := prevHint + 1;
      prevHint := prevHint % HINTCNT;
      hints[prevHint] := b;
    }

    /** Lines 394-399: hints and tree agree on whether a block is cached. */
    method Lookup(block: Key) returns (b: Block?)
      requires Core()
      ensures Core()
      ensures b != null ==> b in blocks && b.treeItem.key == block
      ensures b != null <==> Cached(block)
    {
      b := GetHint(block);
      if b == null {
        TreeHolds();
        hide Items, InOrder;
        var x, rounds := tree.Search(block);
        if x != null {
          b := x.node as Block;
        }
      }
    }

    lemma TreeHolds()
      requires Core()
      ensures forall x :: x in tree.Contents() <==> x in Items(tree.shape)
      ensures forall x :: x in Items(tree.shape) ==> allocated(x)
    {
      ItemsInOrder(tree.shape);
      ItemsAllocated(tree.shape);
    }

    ghost predicate LruValid()
      reads this`lru, this`lruFirst, this`lruLast, BlockSet(lru)`lruNext, BlockSet(lru)`lruPrev
    {
      && NoDuplicates(lru) && Chained(lru)
      && lruFirst == (if lru == [] then null else lru[0])
      && lruLast == (if lru == [] then null else lru[|lru| - 1])
    }

    // ----- writing back -----

    /** Lines 227-242: the medium and, where it covers the block, the read-ahead buffer. */
    method WriteBack(number: Key, data: Data)
      requires Core()
      modifies this`readBuffer, device
      ensures Core()
      ensures forall n: Key :: device.blocks(n) == if n == number then data else old(device.blocks)(n)
    {
      ItemsAllocated(tree.shape);
      hide TyndurTree.Tree.Valid, Indexed, Hinted, Items;
      if readBufferBlock != INVBLKNUM && readBufferBlock <= number && number < readBufferBlock + readBufferCnt {
        readBuffer := readBuffer[number - readBufferBlock := data];
      }
      device.WriteBlock(number, data);
    }

    /** Writing a block out: the medium now shows the block, and the image stays as it is. */
    method WriteOut(b: Block)
      requires Consistent() && b in blocks
      modifies this`readBuffer, device
      ensures Consistent()
      ensures forall m: Key :: device.blocks(m) == if m == b.treeItem.key then b.data else old(device.blocks)(m)
    {
      hide Core, Items, ItemsOf, Cached;
      BlockIsCached(b);
      OthersDiffer(b);
      ListAllocated();
      WriteBack(b.treeItem.key, b.data);
    }

    lemma BlockIsCached(b: Block)
      requires b in blocks
      ensures Cached(b.treeItem.key)
    {
    }

    /** Lines 221-246. */
    method SyncBlock(b: Block)
      requires Consistent() && b in blocks
      modifies this`readBuffer, device, b`dirty
      ensures Consistent() && !b.dirty
      ensures forall m: Key :: m != b.treeItem.key || !old(b.dirty) ==> device.blocks(m) == old(device.blocks)(m)
      ensures old(b.dirty) ==> device.blocks(b.treeItem.key) == b.data
    {
      hide Core, ShowsBut, Items, ItemsOf, Cached;
      OwnedAndListed();
      if !b.dirty {
        return;
      }
      WriteOut(b);
      b.dirty := false;
    }

    ghost predicate Consistent()
      reads this`blocks, this`image, this`prevHint, this`readBuffer, this`readBufferBlock, this`readBufferCnt
      reads hints, device, tree, Items(tree.shape), blocks`refCount, blocks`dirty, blocks`data, ItemsOf(blocks)`key
    {
      Core() && CleanBut(null) && ShowsBut(null)
    }

    lemma Contained()
      requires Core()
      ensures forall x :: x in tree.Contents() ==>
        x.node is Block && (x.node as Block) in blocks && (x.node as Block).treeItem == x
      ensures forall b :: b in blocks ==> b.treeItem in tree.Contents() && b.treeItem.node == b
      ensures forall x :: x in tree.Contents() ==> allocated(x)
      ensures forall x :: x in Items(tree.shape) ==> allocated(x)
      ensures forall b :: b in blocks ==> allocated(b) && allocated(b.treeItem)
    {
      ItemsInOrder(tree.shape);
      ItemsAllocated(tree.shape);
      forall x | x in tree.Contents()
        ensures x.node is Block && (x.node as Block) in blocks && (x.node as Block).treeItem == x
      {
        InOrderIsItem(tree.shape, x);
      }
    }

    ghost function ItemOf(b: Block?): Item? { if b == null then null else b.treeItem }

    /** tree_prev with the conversions between an object and its tree item. */
    method PrevBlock(b: Block?) returns (prev: Block?)
      requires Consistent() && (b != null ==> b in blocks)
      ensures Consistent() && (prev != null ==> prev in blocks)
      ensures b == null ==>
        ItemOf(prev) == (if tree.Contents() == [] then null else tree.Contents()[|tree.Contents()| - 1])
      ensures b != null ==> Precedes(tree.Contents(), b.treeItem, ItemOf(prev))
    {
      Contained();
      hide Indexed, Hinted, Buffered, CleanBut, ShowsBut, Items, InOrder, Precedes, TyndurTree.Tree.Valid;
      var start := if b == null then null else b.treeItem;
      var item := tree.Prev(start);
      prev := if item == null then null else item.node as Block;
    }

    /** order lists the blocks by their numbers. */
    ghost predicate InKeyOrder(order: seq<Block>)
      reads this`blocks, tree`shape, ItemsOf(blocks)`key
    {
      && |order| == |tree.Contents()|
      && (forall j :: 0 <= j < |order| ==> order[j] in blocks && order[j].treeItem == tree.Contents()[j])
      && (forall j, k :: 0 <= j < k < |order| ==> order[j].treeItem.key != order[k].treeItem.key)
      && (forall b :: b in blocks ==> b in order)
      && (forall b, d :: b in blocks && d in blocks && b.treeItem == d.treeItem ==> b == d)
    }

    lemma KeyOrder() returns (order: seq<Block>)
      requires Consistent()
      ensures InKeyOrder(order)
    {
      hide TyndurTree.Tree.Valid, TyndurTree.Tree.Contents, Indexed, Hinted, Buffered, CleanBut, ShowsBut;
      Contained();
      var c := tree.Contents();
      DistinctKeys(c);
      order := [];
      while |order| < |c|
        invariant |order| <= |c|
        invariant forall j :: 0 <= j < |order| ==> order[j] in blocks && order[j].treeItem == c[j]
      {
        assert c[|order|] in c;
        order := order + [c[|order|].node as Block];
      }
      forall b | b in blocks
        ensures b in order
      {
        var j :| 0 <= j < |c| && c[j] == b.treeItem;
        assert order[j].treeItem.node == order[j];
      }
    }

    lemma DistinctKeys(c: seq<Item>)
      requires tree.Valid() && c == tree.Contents()
      ensures forall j, k :: 0 <= j < k < |c| ==> c[j].key != c[k].key
    {
    }

    /** The loop body of lines 261-263. */
    method SyncStep(b: Block, ghost order: seq<Block>, ghost i: nat) returns (prev: Block?)
      requires Consistent() && InKeyOrder(order) && i < |order| && b == order[i]
      modifies this`readBuffer, device, b`dirty
      ensures Consistent() && InKeyOrder(order) && !b.dirty
      ensures prev == if i > 0 then order[i - 1] else null
      ensures forall m: Key :: m != b.treeItem.key || !old(b.dirty) ==> device.blocks(m) == old(device.blocks)(m)
      ensures old(b.dirty) ==> device.blocks(b.treeItem.key) == b.data
    {
      hide Consistent, Precedes, TyndurTree.Tree.Contents;
      SyncBlock(b);
      prev := PrevBlock(b);
      PrecedesAt(tree.Contents(), i, ItemOf(prev));
    }

    /** From order[i] on every block is clean, and the medium holds what was dirty there, and otherwise
        what it held before. The blocks before that are as they were. */
    ghost predicate SyncedFrom(order: seq<Block>, i: nat, was: Key -> Data, dirty: set<Block>)
      reads device, BlockSet(order)`dirty, BlockSet(order)`data, ItemsOf(BlockSet(order))`key
    {
      && (forall j :: 0 <= j < |order| ==>
            var b := order[j];
            && b.dirty == (j < i && b in dirty)
            && device.blocks(b.treeItem.key) == if j >= i && b in dirty then b.data else was(b.treeItem.key))
      && (forall m: Key :: (forall b :: b in order ==> b.treeItem.key != m) ==> device.blocks(m) == was(m))
    }

    method SyncNext(b: Block, ghost order: seq<Block>, ghost i: nat, ghost was: Key -> Data, ghost dirty: set<Block>)
      returns (prev: Block?)
      requires Consistent() && InKeyOrder(order) && i < |order| && b == order[i] && SyncedFrom(order, i + 1, was, dirty)
      modifies this`readBuffer, device, b`dirty
      ensures Consistent() && InKeyOrder(order) && SyncedFrom(order, i, was, dirty)
      ensures prev == if i > 0 then order[i - 1] else null
    {
      hide Consistent, TyndurTree.Tree.Contents;
      prev := SyncStep(b, order, i);
    }

    /** The first call of tree_prev in line 261. */
    method LastBlock(ghost order: seq<Block>, ghost was: Key -> Data, ghost dirty: set<Block>) returns (b: Block?)
      requires Consistent() && InKeyOrder(order) && SyncedFrom(order, |order|, was, dirty)
      ensures Consistent() && InKeyOrder(order) && SyncedFrom(order, |order|, was, dirty)
      ensures b == if |order| > 0 then order[|order| - 1] else null
    {
      hide Consistent;
      b := PrevBlock(null);
    }

    lemma OrderInBlocks(order: seq<Block>)
      requires InKeyOrder(order)
      ensures forall c :: c in order ==> c in blocks
    {
    }

    /** Lines 256-266: the tree is walked from its greatest key down, so that no block is missed. */
    method SyncInOrder(ghost order: seq<Block>, ghost was: Key -> Data, ghost dirty: set<Block>)
      requires Consistent() && InKeyOrder(order) && SyncedFrom(order, |order|, was, dirty)
      modifies this`readBuffer, device, blocks`dirty
      ensures Consistent() && SyncedFrom(order, 0, was, dirty)
    {
      hide *;
      ghost var i := |order|;
      OrderInBlocks(order);
      var b := LastBlock(order, was, dirty);
      while b != null
        invariant 0 <= i <= |order| && Consistent() && InKeyOrder(order) && SyncedFrom(order, i, was, dirty)
        invariant b == if i > 0 then order[i - 1] else null
        decreases i
      {
        i := i - 1;
        b := SyncNext(b, order, i, was, dirty);
      }
    }

    /** cdi_cache_sync. */
    method Sync()
      requires Consistent()
      modifies this`readBuffer, device, blocks`dirty
      ensures Consistent()
      ensures forall b :: b in blocks ==> !b.dirty
      ensures forall b :: b in blocks ==>
        device.blocks(b.treeItem.key) == if old(b.dirty) then b.data else old(device.blocks)(b.treeItem.key)
      ensures WrittenBack(old(Dirty()), old(Handles()), old(device.blocks), Dirty(), device.blocks)
    {
      hide *;
      ListAllocated();
      ghost var was, dirty := device.blocks, Dirty();
      ghost var order := KeyOrder();
      NothingSynced(order);
      SyncInOrder(order, was, dirty);
      AllSynced(order, was, dirty);
      SyncWrote(was, dirty);
    }

    lemma NothingSynced(order: seq<Block>)
      requires InKeyOrder(order)
      ensures SyncedFrom(order, |order|, device.blocks, Dirty()) && BlockSet(order) == blocks
      ensures Dirty() <= blocks && forall b :: b in blocks ==> (b in order && (b in Dirty() <==> b.dirty))
    {
    }

    lemma AllSynced(order: seq<Block>, was: Key -> Data, dirty: set<Block>)
      requires SyncedFrom(order, 0, was, dirty)
      ensures forall b :: b in order ==>
        !b.dirty && device.blocks(b.treeItem.key) == if b in dirty then b.data else was(b.treeItem.key)
      ensures forall m: Key :: (forall b :: b in order ==> b.treeItem.key != m) ==> device.blocks(m) == was(m)
    {
    }

    lemma SyncWrote(was: Key -> Data, dirty: set<Block>)
      requires dirty <= blocks
      requires forall b :: b in blocks ==>
        !b.dirty && device.blocks(b.treeItem.key) == if b in dirty then b.data else was(b.treeItem.key)
      requires forall m: Key :: (forall b :: b in blocks ==> b.treeItem.key != m) ==> device.blocks(m) == was(m)
      ensures WrittenBack(dirty, Handles(), was, Dirty(), device.blocks)
    {
      var h := Handles();
      forall m: Key | device.blocks(m) != was(m)
        ensures exists b :: b in dirty && b in h && h[b].number == m && device.blocks(m) == h[b].data
      {
        var b :| b in blocks && b.treeItem.key == m;
        assert b in dirty && h[b] == Handle(m, b.data, b.refCount);
      }
    }

    /** Lines 296-310: the least recently used block that nobody holds. It stays where it is in the
        list; a dirty one takes all other dirty blocks to the medium with it. */
    method FindReplaceable() returns (b: Block?, ghost pos: nat)
      requires Consistent() && LruValid() && BlockSet(lru) == blocks
      modifies this`readBuffer, device, blocks`dirty
      ensures Consistent() && LruValid()
      ensures forall j :: 0 <= j < pos && j < |lru| ==> lru[j].refCount > 0
      ensures b == null ==> pos == |lru|
      ensures b != null ==> pos < |lru| && b == lru[pos] && b.refCount == 0 && !b.dirty
      ensures WrittenBack(old(Dirty()), old(Handles()), old(device.blocks), Dirty(), device.blocks)
    {
      hide Consistent, LruValid, BlockSet, Items, ItemsOf;
      OwnedAndListed();
      b, pos := FirstUnheld();
      if b != null && b.dirty {
        ListHolds(pos);
        Sync();
      }
    }

    lemma OwnedAndListed()
      requires Consistent()
      ensures forall x :: x in Items(tree.shape) ==> allocated(x)
      ensures forall x :: x in ItemsOf(blocks) ==> allocated(x)
      ensures forall b :: b in BlockSet(lru) ==> allocated(b)
    {
      Owned();
      ListAllocated();
    }

    lemma ListHolds(pos: nat)
      requires pos < |lru|
      ensures lru[pos] in BlockSet(lru)
    {
    }

    /** Lines 300-304. */
    method FirstUnheld() returns (b: Block?, ghost pos: nat)
      requires LruValid()
      ensures forall j :: 0 <= j < pos && j < |lru| ==> lru[j].refCount > 0
      ensures b == null ==> pos == |lru|
      ensures b != null ==> pos < |lru| && b == lru[pos] && b.refCount == 0
    {
      b, pos := lruFirst, 0;
      while b != null && b.refCount != 0
        invariant pos <= |lru| && b == (if pos < |lru| then lru[pos] else null)
        invariant forall j :: 0 <= j < pos ==> lru[j].refCount > 0
        decreases |lru| - pos
      {
        assert ChainedAt(lru, pos);
        b := b.lruPrev;
        pos := pos + 1;
      }
    }

    /** Lines 359-363. Holds for every number, also for the one that marks the buffer as empty. */
    method Refill(block: Key)
      requires Core()
      modifies this`readBuffer, this`readBufferBlock, this`readBufferCnt
      ensures Core() && readBufferBlock == block
      ensures readBufferCnt > 0 ==> readBuffer[0] == device.blocks(block)
    {
      ItemsAllocated(tree.shape);
      hide TyndurTree.Tree.Valid, Items;
      readBufferBlock := block;
      var buffer := device.ReadBlocks(block);
      readBuffer := buffer + readBuffer[|buffer|..];
      readBufferCnt := |buffer|;
    }

    ghost predicate ReadAhead(n: Key)
      reads this`readBufferBlock, this`readBufferCnt
    {
      readBufferBlock != INVBLKNUM && readBufferBlock <= n < readBufferBlock + readBufferCnt
    }

    /** Lines 348-374. A block that has been read ahead is there even if the medium fails now; after a
        failure the read-ahead buffer is empty. */
    method LoadBlock(b: Block) returns (ok: bool)
      requires Core() && b in blocks
      modifies this`readBuffer, this`readBufferBlock, this`readBufferCnt, b`data
      ensures Core() && b.data == if ok then device.blocks(b.treeItem.key) else old(b.data)
      ensures old(ReadAhead(b.treeItem.key)) ==> ok && readBuffer == old(readBuffer)
      ensures ok <==> readBufferCnt > 0
    {
      ItemsAllocated(tree.shape);
      hide TyndurTree.Tree.Valid, Items;
      var rbbnum, block := readBufferBlock, b.treeItem.key;
      if rbbnum == INVBLKNUM || rbbnum > block || block >= rbbnum + readBufferCnt {
        rbbnum := block;
        Refill(block);
        if readBufferCnt == 0 {
          return false;
        }
      }
      b.data := readBuffer[block - rbbnum];
      ok := true;
    }

    /** A block whose number has just been set and whose data is not there yet. */
    ghost predicate Pending(b: Block)
      reads this`blocks, this`image, this`prevHint, this`readBuffer, this`readBufferBlock, this`readBufferCnt
      reads hints, device, tree, Items(tree.shape), blocks`refCount, blocks`dirty, blocks`data, ItemsOf(blocks)`key
      reads b`refCount, b`dirty, b.treeItem`key
    {
      && Core() && CleanBut(b) && ShowsBut(b)
      && b in blocks && b.refCount == 0 && !b.dirty
      && image(b.treeItem.key) == device.blocks(b.treeItem.key)
    }

    lemma KeyIsFree(n: Key)
      requires Core() && !Cached(n)
      ensures !TyndurTree.HasKey(tree.Contents(), n)
    {
      Contained();
    }

    /** What the predicates about data need to know to carry over when the tree changes. */
    lemma Owned()
      requires Core()
      ensures forall x :: x in Items(tree.shape) ==> allocated(x)
      ensures forall b :: b in blocks ==> allocated(b) && allocated(b.treeItem) && b.treeItem in Items(tree.shape)
      ensures ItemsOf(blocks) == Items(tree.shape)
    {
      ItemsAllocated(tree.shape);
      forall x | x in Items(tree.shape)
        ensures x in ItemsOf(blocks)
      {
        assert (x.node as Block) in blocks;
      }
    }

    lemma NotInTree(x: Item)
      requires Core() && (x.node is Block ==> (x.node as Block) !in blocks)
      ensures x !in tree.Contents() && x !in Items(tree.shape)
    {
      Contained();
    }

    /** tree_insert of a block whose number is not cached. */
    method InsertInTree(b: Block)
      requires Core() && b !in blocks && b.treeItem.node == b && !Cached(b.treeItem.key)
      modifies tree`root, tree`shape
      modifies b.treeItem`left, b.treeItem`right, b.treeItem`parent, b.treeItem`balance
      modifies Items(tree.shape)`left, Items(tree.shape)`right, Items(tree.shape)`parent, Items(tree.shape)`balance
      ensures tree.Valid() && Items(tree.shape) == old(Items(tree.shape)) + {b.treeItem}
    {
      Contained();
      KeyIsFree(b.treeItem.key);
      NotInTree(b.treeItem);
      hide Core, Items, TyndurTree.Tree.Valid, TyndurTree.Tree.Contents, TyndurTree.HasKey;
      ghost var pos, path, s := tree.Insert(b.treeItem);
    }

    /** From here on b counts as one of the blocks. */
    ghost method Adopt(b: Block)
      requires tree.Valid() && Hinted() && Buffered() && CleanBut(null) && ShowsBut(null)
      requires Items(tree.shape) == ItemsOf(blocks) + {b.treeItem} && b.treeItem.node == b
      requires forall c :: c in blocks ==> c.treeItem.node == c
      requires !Cached(b.treeItem.key) && b.refCount == 0 && !b.dirty
      modifies this`blocks
      ensures Pending(b) && blocks == old(blocks) + {b}
    {
      hide Items, TyndurTree.Tree.Valid, Buffered;
      ghost var were := blocks;
      blocks := blocks + {b};
      assert forall c :: c in were ==> c.treeItem in ItemsOf(were);
      assert ShowsBut(b) by {
        assert Cached(b.treeItem.key);
      }
    }

    method InsertPending(b: Block)
      requires Consistent() && b !in blocks && b.treeItem.node == b && !Cached(b.treeItem.key)
      requires b.refCount == 0 && !b.dirty && b.treeItem !in ItemsOf(blocks)
      modifies this`blocks, tree`root, tree`shape
      modifies b.treeItem`left, b.treeItem`right, b.treeItem`parent, b.treeItem`balance
      modifies Items(tree.shape)`left, Items(tree.shape)`right, Items(tree.shape)`parent, Items(tree.shape)`balance
      ensures Pending(b) && blocks == old(blocks) + {b}
    {
      Owned();
      hide Items, ItemsOf, TyndurTree.Tree.Valid, Hinted, Buffered, CleanBut, ShowsBut, Cached, Pending;
      InsertInTree(b);
      Adopt(b);
    }

    /** Lines 404-409: nothing that belongs to the cache is touched. */
    method MakeBlock(n: Key) returns (b: Block)
      requires Consistent() && !Cached(n)
      ensures fresh(b) && fresh(b.treeItem) && b.treeItem.node == b && b.treeItem.key == n
      ensures b !in blocks && b.treeItem !in ItemsOf(blocks) && b.refCount == 0 && !b.dirty
      ensures b.lruNext == null && b.lruPrev == null
      ensures Consistent() && !Cached(n)
    {
      Owned();
      hide Consistent, Cached, Items, ItemsOf;
      var data: Data := *;
      b := new Block(n, data);
    }

    /** Lines 403-412. */
    method NewBlock(n: Key) returns (b: Block)
      requires Consistent() && !Cached(n)
      modifies this`blocks, this`blocksUsed, tree`root, tree`shape
      modifies Items(tree.shape)`left, Items(tree.shape)`right, Items(tree.shape)`parent, Items(tree.shape)`balance
      ensures fresh(b) && fresh(b.treeItem) && Pending(b) && b.treeItem.key == n
      ensures blocks == old(blocks) + {b} && blocksUsed == old(blocksUsed) + 1
      ensures b.lruNext == null && b.lruPrev == null
      ensures Dirty() == old(Dirty())
    {
      hide *;
      OwnedAndListed();
      DirtyIs();
      b := MakeBlock(n);
      DirtyWith(blocks, b);
      blocksUsed := blocksUsed + 1;
      InsertPending(b);
      DirtyIs();
    }

    // ----- replacing a block -----

    /** The blocks other than b show the image, and where there is none of them the medium does.
        None of them has the number n. */
    ghost predicate ShownWithout(b: Block, n: Key)
      reads this`blocks, this`image, device
      reads (blocks - {b})`refCount, (blocks - {b})`dirty, (blocks - {b})`data, ItemsOf(blocks - {b})`key
    {
      ShownBy(blocks - {b}) && forall c :: c in blocks - {b} ==> c.treeItem.key != n
    }

    ghost predicate ShownBy(some: set<Block>)
      reads this`image, device, some`refCount, some`dirty, some`data, ItemsOf(some)`key
    {
      && (forall c :: c in some ==> image(c.treeItem.key) == c.data)
      && (forall c :: c in some && c.refCount == 0 && !c.dirty ==> c.data == device.blocks(c.treeItem.key))
      && (forall m: Key :: (forall c :: c in some ==> c.treeItem.key != m) ==> image(m) == device.blocks(m))
    }

    /** A clean block that nobody holds can be dropped: the medium shows the same. */
    lemma Dispensable(b: Block, n: Key)
      requires Consistent() && b in blocks && b.refCount == 0 && !b.dirty && !Cached(n)
      ensures ShownWithout(b, n)
      ensures b.treeItem in Items(tree.shape) && b.treeItem !in ItemsOf(blocks - {b})
      ensures forall y :: y in Items(tree.shape) ==> allocated(y) && y.key != n
      ensures forall y :: y in ItemsOf(blocks - {b}) ==> allocated(y)
      ensures Core() && forall c :: c in blocks ==> allocated(c)
    {
      Owned();
      KeyIsNew(n);
      forall m: Key | forall c :: c in blocks - {b} ==> c.treeItem.key != m
        ensures image(m) == device.blocks(m)
      {
        if Cached(m) {
          assert b.treeItem.key == m;
        }
      }
    }

    lemma NowPending(b: Block)
      requires Core() && ShownWithout(b, b.treeItem.key) && b in blocks && b.refCount == 0 && !b.dirty
      ensures Pending(b)
    {
      forall m: Key | !Cached(m)
        ensures image(m) == device.blocks(m)
      {
        assert forall c :: c in blocks - {b} ==> c.treeItem.key != m;
      }
    }

    /** tree_remove of a cached block. */
    method RemoveFromTree(b: Block)
      requires Core() && b in blocks
      modifies tree`root, tree`shape
      modifies Items(tree.shape)`left, Items(tree.shape)`right, Items(tree.shape)`parent, Items(tree.shape)`balance
      ensures tree.Valid() && Items(tree.shape) == old(Items(tree.shape)) - {b.treeItem}
    {
      Contained();
      hide Core, Items, TyndurTree.Tree.Valid, TyndurTree.Tree.Contents;
      ghost var pos := tree.Remove(b.treeItem);
    }

    /** tree_insert of a block that was just removed and has a number of its own now. */
    method InsertAgain(b: Block)
      requires tree.Valid() && b.treeItem !in Items(tree.shape)
      requires forall y :: y in Items(tree.shape) ==> y.key != b.treeItem.key
      modifies tree`root, tree`shape
      modifies b.treeItem`left, b.treeItem`right, b.treeItem`parent, b.treeItem`balance
      modifies Items(tree.shape)`left, Items(tree.shape)`right, Items(tree.shape)`parent, Items(tree.shape)`balance
      ensures tree.Valid() && Items(tree.shape) == old(Items(tree.shape)) + {b.treeItem}
    {
      ItemsInOrder(tree.shape);
      ItemsAllocated(tree.shape);
      assert !TyndurTree.HasKey(tree.Contents(), b.treeItem.key);
      hide Items, InOrder, TyndurTree.Tree.Valid, TyndurTree.Tree.Contents, TyndurTree.HasKey;
      ghost var pos, path, s := tree.Insert(b.treeItem);
    }

    /** Lines 419-421, as far as the tree is concerned. */
    method MoveInTree(b: Block, n: Key)
      requires Core() && b in blocks && forall y :: y in Items(tree.shape) ==> y.key != n
      modifies tree`root, tree`shape, b.treeItem`key
      modifies Items(tree.shape)`left, Items(tree.shape)`right, Items(tree.shape)`parent, Items(tree.shape)`balance
      ensures tree.Valid() && Items(tree.shape) == old(Items(tree.shape)) && b.treeItem.key == n
    {
      Owned();
      hide Core, Items, ItemsOf, TyndurTree.Tree.Valid;
      RemoveFromTree(b);
      b.treeItem.key := n;
      InsertAgain(b);
    }

    method MoveInCore(b: Block, n: Key)
      requires Core() && b in blocks && forall y :: y in Items(tree.shape) ==> y.key != n
      modifies tree`root, tree`shape, b.treeItem`key
      modifies Items(tree.shape)`left, Items(tree.shape)`right, Items(tree.shape)`parent, Items(tree.shape)`balance
      ensures Core() && b.treeItem.key == n
    {
      Owned();
      hide Items, ItemsOf, TyndurTree.Tree.Valid, Hinted, Buffered;
      MoveInTree(b, n);
    }

    method MoveKept(b: Block, n: Key)
      requires Core() && b in blocks && forall y :: y in Items(tree.shape) ==> y.key != n
      modifies tree`root, tree`shape, b.treeItem`key
      modifies Items(tree.shape)`left, Items(tree.shape)`right, Items(tree.shape)`parent, Items(tree.shape)`balance
      ensures Core() && b.treeItem.key == n && Handles() - Only(b) == old(Handles()) - Only(b)
    {
      hide Core, Items, ItemsOf, Handles;
      ghost var was, others := Handles(), blocks - {b};
      OthersApart(b);
      MoveInCore(b, n);
      SameElsewhere(b, was, others);
    }

    lemma OthersApart(b: Block)
      requires Core() && b in blocks
      ensures forall c :: c in blocks - {b} ==> c.treeItem != b.treeItem && allocated(c) && allocated(c.treeItem)
      ensures forall c :: c in blocks - {b} ==> Handles()[c] == Handle(c.treeItem.key, c.data, c.refCount)
      ensures Handles().Keys == blocks
    {
    }

    lemma SameElsewhere(b: Block, was: map<Block, Handle>, others: set<Block>)
      requires b in blocks && others == blocks - {b} && was.Keys == blocks
      requires forall c :: c in others ==> was[c] == Handle(c.treeItem.key, c.data, c.refCount)
      ensures Handles() - Only(b) == was - Only(b)
    {
    }

    lemma KeyIsNew(n: Key)
      requires Core() && !Cached(n)
      ensures forall y :: y in Items(tree.shape) ==> y.key != n
    {
      forall y | y in Items(tree.shape)
        ensures y.key != n
      {
        assert (y.node as Block) in blocks;
      }
    }

    /** A cached block makes room for block n. */
    method Rekey(b: Block, n: Key)
      requires Consistent() && b in blocks && b.refCount == 0 && !b.dirty && !Cached(n)
      modifies tree`root, tree`shape, b.treeItem`key
      modifies Items(tree.shape)`left, Items(tree.shape)`right, Items(tree.shape)`parent, Items(tree.shape)`balance
      ensures Pending(b) && b.treeItem.key == n
      ensures Handles() - Only(b) == old(Handles()) - Only(b)
    {
      hide *;
      Dispensable(b, n);
      MoveKept(b, n);
      NowPending(b);
    }

    lemma OthersDiffer(b: Block)
      requires Core() && b in blocks
      ensures forall c :: c in blocks && c != b ==> c.treeItem.key != b.treeItem.key
      ensures forall x :: x in Items(tree.shape) ==> allocated(x)
    {
      forall c | c in blocks && c != b
        ensures c.treeItem.key != b.treeItem.key
      {
        if c.treeItem.key == b.treeItem.key {
          KeysDistinct(b, c);
        }
      }
      ItemsAllocated(tree.shape);
    }

    /** Lines 434-439 and 461-466: the neighbours of b are linked to each other. */
    method UnlinkNeighbours(b: Block, ghost pos: int)
      requires NoDuplicates(lru) && Chained(lru) && -1 <= pos < |lru|
      requires if pos < 0 then b !in lru && b.lruNext == null && b.lruPrev == null else lru[pos] == b
      modifies this`lru, BlockSet(lru)`lruNext, BlockSet(lru)`lruPrev
      ensures NoDuplicates(lru) && Chained(lru) && lru == Without(old(lru), pos) && b !in lru
      ensures b.lruPrev == old(b.lruPrev)
      ensures 0 <= pos < |old(lru)| - 1 ==> b.lruPrev == old(lru)[pos + 1]
    {
      hide NoDuplicates, Without;
      WithoutIsDistinct(lru, b, pos);
      ghost var was, n := lru, |lru|;
      if pos >= 0 {
        assert ChainedAt(was, pos);
        assert pos + 1 < n ==> was[pos + 1] in was && ChainedAt(was, pos + 1);
        assert 0 < pos ==> was[pos - 1] in was && ChainedAt(was, pos - 1);
      }
      assert forall i {:trigger ChainedAt(was, i)} :: 0 <= i < n ==> ChainedAt(was, i);
      if b.lruNext != null {
        b.lruNext.lruPrev := b.lruPrev;
      }
      if b.lruPrev != null {
        b.lruPrev.lruNext := b.lruNext;
      }
      if pos >= 0 {
        lru := Without(was, pos);
        assert forall i {:trigger ChainedAt(was, i)} ::
            0 <= i < n && i != pos && i != pos + 1 && i != pos - 1 ==> ChainedAt(was, i);
        forall i {:trigger ChainedAt(lru, i)} | 0 <= i < |lru|
          ensures ChainedAt(lru, i)
        {
          ghost var j := if i < pos then i else i + 1;
          assert lru[i] == was[j];
          if j != pos + 1 && j != pos - 1 {
            assert ChainedAt(was, j);
          }
        }
      }
    }

    lemma WithoutIsDistinct(c: seq<Block>, b: Block, pos: int)
      requires NoDuplicates(c) && -1 <= pos < |c| && if pos < 0 then b !in c else c[pos] == b
      ensures var d := Without(c, pos);
              && NoDuplicates(d) && b !in d && |d| == (if pos < 0 then |c| else |c| - 1)
              && (forall i :: 0 <= i < |d| ==> d[i] == c[if pos < 0 || i < pos then i else i + 1])
              && (pos < 0 ==> d == c)
      ensures forall i, j :: 0 <= i < |c| && 0 <= j < |c| && i != j ==> c[i] != c[j]
    {
    }

    lemma EndsWithout(c: seq<Block>, b: Block, pos: int)
      requires NoDuplicates(c) && -1 <= pos < |c| && (c != [] ==> c[|c| - 1] != b)
      requires if pos < 0 then b !in c else c[pos] == b
      ensures c != [] ==> (c[0] == b <==> pos == 0)
      ensures Without(c, pos) == [] <==> c == []
      ensures c != [] ==> Without(c, pos)[0] == (if pos == 0 then c[1] else c[0])
      ensures c != [] ==> Without(c, pos)[|Without(c, pos)| - 1] == c[|c| - 1]
    {
    }

    /** Lines 461-469. */
    method UnlinkLru(b: Block, ghost pos: int)
      requires LruValid() && -1 <= pos < |lru| && b != lruLast
      requires if pos < 0 then b !in lru && b.lruNext == null && b.lruPrev == null else lru[pos] == b
      modifies this`lru, this`lruFirst, BlockSet(lru)`lruNext, BlockSet(lru)`lruPrev
      ensures LruValid() && b !in lru && lruLast == old(lruLast) && lru == Without(old(lru), pos)
    {
      hide Chained, NoDuplicates, BlockSet, Without;
      EndsWithout(lru, b, pos);
      UnlinkNeighbours(b, pos);
      if lruFirst == b {
        lruFirst := b.lruPrev;
      }
    }

    /** Lines 470-477. */
    method AppendLru(b: Block)
      requires LruValid() && b !in lru
      modifies this`lru, this`lruFirst, this`lruLast, BlockSet(lru)`lruPrev, b`lruNext, b`lruPrev
      ensures LruValid() && lru == old(lru) + [b]
    {
      ghost var was, n := lru, |lru|;
      assert n > 0 ==> lruLast in lru && ChainedAt(was, n - 1);
      b.lruNext := lruLast;
      b.lruPrev := null;
      if lruLast != null {
        lruLast.lruPrev := b;
      } else {
        lruFirst := b;
      }
      lruLast := b;
      lru := was + [b];
      assert forall i {:trigger ChainedAt(was, i)} :: 0 <= i < n - 1 ==> ChainedAt(was, i);
      forall i {:trigger ChainedAt(lru, i)} | 0 <= i < |lru|
        ensures ChainedAt(lru, i)
      {
        if i < n - 1 {
          assert ChainedAt(was, i);
        }
      }
    }

    /** Lines 454-477: a block becomes the most recently used one. */
    method Touch(b: Block, ghost pos: int)
      requires LruValid() && -1 <= pos < |lru|
      requires if pos < 0 then b !in lru && b.lruNext == null && b.lruPrev == null else lru[pos] == b
      modifies this`lru, this`lruFirst, this`lruLast, BlockSet(lru)`lruNext, BlockSet(lru)`lruPrev, b`lruNext, b`lruPrev
      ensures LruValid() && lru == Moved(old(lru), b, pos)
    {
      if b == lruLast {
        return;
      }
      UnlinkLru(b, pos);
      AppendLru(b);
    }

    // ----- obtaining a block -----

    /** pos is where the eviction has to look: the first block in the list that nobody holds. */
    ghost predicate Evictable(pos: int)
      reads this`lru, BlockSet(lru)`refCount
    {
      && 0 <= pos <= |lru|
      && (forall j :: 0 <= j < pos ==> lru[j].refCount > 0)
      && (pos < |lru| ==> lru[pos].refCount == 0)
    }

    /** Where a block stands that is about to become the most recently used one: not in the list yet
        (pos < 0), or at position pos. */
    ghost predicate Placed(b: Block, pos: int)
      reads this`lru, this`blocks, this`blocksUsed, this`lruFirst, this`lruLast
      reads BlockSet(lru)`lruNext, BlockSet(lru)`lruPrev, b`lruNext, b`lruPrev
    {
      if pos >= 0 then
        pos < |lru| && lru[pos] == b && Listed()
      else
        && LruValid() && b !in lru && b.lruNext == null && b.lruPrev == null && pos == -1
        && blocks == BlockSet(lru) + {b} && blocksUsed == |lru| + 1 <= BLOCK_COUNT
    }

    method FindEvictable() returns (b: Block?, ghost pos: int)
      requires Consistent() && Listed()
      modifies this`readBuffer, device, blocks`dirty
      ensures Consistent() && Listed() && Evictable(pos)
      ensures b == null ==> pos == |lru|
      ensures b != null ==> 0 <= pos < |lru| && b == lru[pos] && b in blocks && b.refCount == 0 && !b.dirty
      ensures b != null ==> b.treeItem in ItemsOf(blocks)
      ensures Handles() - Only(b) == old(Handles()) - Only(b)
      ensures WrittenBack(old(Dirty()), old(Handles()), old(device.blocks), Dirty(), device.blocks)
    {
      hide Consistent, LruValid;
      b, pos := FindReplaceable();
    }

    lemma ListAllocated()
      ensures forall b :: b in BlockSet(lru) ==> allocated(b)
      ensures forall b :: b in blocks ==> allocated(b)
      ensures forall x :: x in ItemsOf(blocks) ==> allocated(x)
    {
    }

    /** Rekey leaves the list alone. */
    method RekeyListed(b: Block, n: Key, ghost pos: int)
      requires Consistent() && Listed() && Evictable(pos) && b in blocks && b.refCount == 0 && !b.dirty && !Cached(n)
      modifies tree`root, tree`shape, b.treeItem`key
      modifies Items(tree.shape)`left, Items(tree.shape)`right, Items(tree.shape)`parent, Items(tree.shape)`balance
      ensures Listed() && Evictable(pos) && Pending(b) && b.treeItem.key == n
      ensures Handles() - Only(b) == old(Handles()) - Only(b)
    {
      ListAllocated();
      hide *;
      Rekey(b, n);
    }

    /** Lines 413-422. */
    method ProvideOld(n: Key) returns (b: Block?, ghost pos: int)
      requires Consistent() && Listed() && !Cached(n)
      modifies this`readBuffer, device, blocks`dirty, tree`root, tree`shape, ItemsOf(blocks)`key
      modifies Items(tree.shape)`left, Items(tree.shape)`right, Items(tree.shape)`parent, Items(tree.shape)`balance
      ensures Listed() && Evictable(pos)
      ensures b == null ==> Consistent() && pos == |lru|
      ensures b != null ==> 0 <= pos < |lru| && b == lru[pos] && Pending(b) && b.treeItem.key == n
      ensures Handles() - Only(b) == old(Handles()) - Only(b)
      ensures WrittenBack(old(Dirty()), old(Handles()), old(device.blocks), Dirty(), device.blocks)
    {
      hide *;
      OwnedAndListed();
      b, pos := FindEvictable();
      if b != null {
        RekeyListed(b, n, pos);
      }
    }

    /** The block shows the image; it may be newer than the medium although it is not dirty. */
    ghost predicate Filled(b: Block)
      reads this`blocks, this`image, this`prevHint, this`readBuffer, this`readBufferBlock, this`readBufferCnt
      reads hints, device, tree, Items(tree.shape), blocks`refCount, blocks`dirty, blocks`data, ItemsOf(blocks)`key
    {
      Core() && CleanBut(b) && ShowsBut(null) && b in blocks
    }

    /** Lines 424-425: without noread the block now shows the image, and otherwise the image is
        whatever the block happens to hold. */
    method Fill(b: Block, noread: bool) returns (ok: bool)
      requires Pending(b)
      modifies this`readBuffer, this`readBufferBlock, this`readBufferCnt, this`image, b`data
      ensures ok ==> Filled(b) && (!noread ==> b.data == device.blocks(b.treeItem.key))
      ensures !ok ==> Pending(b) && !noread && readBufferCnt == 0 && image == old(image)
      ensures forall m: Key :: (noread ==> m != b.treeItem.key) ==> image(m) == old(image)(m)
      ensures Handles() - Only(b) == old(Handles()) - Only(b)
    {
      hide Core, Items, ItemsOf, Cached, Pending, Filled, Handles;
      ghost var was, others := Handles(), blocks - {b};
      PendingParts(b);
      ok := true;
      if !noread {
        ok := LoadBlock(b);
      } else {
        ghost var shown, n, data := image, b.treeItem.key, b.data;
        image := (m: Key) => if m == n then data else shown(m);
      }
      if ok {
        NowFilled(b);
      } else {
        StillPending(b);
      }
      SameElsewhere(b, was, others);
    }

    lemma StillPending(b: Block)
      requires Core() && CleanBut(b) && ShowsBut(b) && b in blocks && b.refCount == 0 && !b.dirty
      requires image(b.treeItem.key) == device.blocks(b.treeItem.key)
      ensures Pending(b)
    {
    }

    lemma PendingParts(b: Block)
      requires Pending(b)
      ensures b.refCount == 0 && !b.dirty
      ensures Core() && CleanBut(b) && ShowsBut(b) && b in blocks &&
        image(b.treeItem.key) == device.blocks(b.treeItem.key)
      ensures forall c :: c in blocks && c != b ==> c.treeItem.key != b.treeItem.key
      ensures forall x :: x in Items(tree.shape) ==> allocated(x)
      ensures forall x :: x in ItemsOf(blocks) ==> allocated(x)
      ensures forall c :: c in blocks - {b} ==>
        allocated(c) && Handles()[c] == Handle(c.treeItem.key, c.data, c.refCount)
      ensures Handles().Keys == blocks && Cached(b.treeItem.key)
    {
      OthersDiffer(b);
    }

    lemma NowFilled(b: Block)
      requires Core() && CleanBut(b) && ShowsBut(b) && b in blocks && image(b.treeItem.key) == b.data
      ensures Filled(b)
    {
    }

    /** Lines 404-412. */
    method ProvideNew(n: Key) returns (b: Block)
      requires Valid() && !Cached(n) && blocksUsed < BLOCK_COUNT
      modifies this`blocks, this`blocksUsed, tree`root, tree`shape
      modifies Items(tree.shape)`left, Items(tree.shape)`right, Items(tree.shape)`parent, Items(tree.shape)`balance
      ensures fresh(b) && fresh(b.treeItem) && Pending(b) && b.treeItem.key == n && Placed(b, -1)
      ensures Handles() - Only(b) == old(Handles()) - Only(b)
      ensures Dirty() == old(Dirty())
    {
      ListAllocated();
      hide Items, ItemsOf, Consistent, LruValid, Cached, Pending;
      b := NewBlock(n);
    }

    /** Lines 403-422; a new block if there is room, and otherwise eviction. */
    method Provide(n: Key) returns (b: Block?, inTree: bool, ghost pos: int)
      requires Valid() && !Cached(n)
      modifies this`blocks, this`blocksUsed, this`readBuffer, device, blocks`dirty
      modifies tree`root, tree`shape, ItemsOf(blocks)`key
      modifies Items(tree.shape)`left, Items(tree.shape)`right, Items(tree.shape)`parent, Items(tree.shape)`balance
      ensures b == null ==> Valid() && pos == |lru|
      ensures b != null ==> Pending(b) && b.treeItem.key == n && Placed(b, pos)
      ensures |lru| < BLOCK_COUNT ==> b != null && pos == -1 && fresh(b) && fresh(b.treeItem)
      ensures |lru| == BLOCK_COUNT ==> old(Evictable(pos)) && (b != null ==> 0 <= pos < |lru| && b == lru[pos])
      ensures b != null ==> (inTree <==> pos >= 0)
      ensures Handles() - Only(b) == old(Handles()) - Only(b)
      ensures WrittenBack(old(Dirty()), old(Handles()), old(device.blocks), Dirty(), device.blocks)
    {
      hide Consistent, LruValid, Evictable, Cached, Pending, BlockSet, Handles, Items, ItemsOf, Dirty, DirtyOf;
      hide WrittenBack, Only;
      BeforeGet();
      NothingWritten(Dirty(), Handles(), device.blocks);
      inTree := blocksUsed >= BLOCK_COUNT;
      if blocksUsed < BLOCK_COUNT {
        pos := -1;
        b := ProvideNew(n);
      } else {
        b, pos := ProvideOld(n);
      }
    }

    method AddReference(b: Block)
      modifies b`refCount
      ensures b.refCount == (old(b.refCount) + 1) % COUNTS
      ensures Handles() - Only(b) == old(Handles()) - Only(b)
    {
      b.refCount := (b.refCount + 1) % COUNTS;
    }

    lemma FilledOwned(b: Block)
      requires Filled(b)
      ensures forall x :: x in Items(tree.shape) ==> allocated(x)
      ensures forall c :: c in blocks ==> allocated(c) && allocated(c.treeItem)
      ensures forall x :: x in ItemsOf(blocks) ==> allocated(x)
    {
      Owned();
      ListAllocated();
    }

    /** Lines 450-452: the hint and the reference. Whoever holds a block may have changed it. */
    method Hold(b: Block)
      requires Filled(b)
      modifies this`prevHint, hints, b`refCount
      ensures Filled(b) && b.refCount == (old(b.refCount) + 1) % COUNTS
      ensures Handles() - Only(b) == old(Handles()) - Only(b)
      ensures NewestHint(b)
    {
      hide Items, ItemsOf, TyndurTree.Tree.Valid, Handles, Indexed, Buffered, ShowsBut, BlockSet;
      FilledOwned(b);
      PutHint(b);
      AddReference(b);
    }

    method TouchKept(b: Block, ghost pos: int)
      requires LruValid() && -1 <= pos < |lru|
      requires if pos < 0 then b !in lru && b.lruNext == null && b.lruPrev == null else lru[pos] == b
      modifies this`lru, this`lruFirst, this`lruLast, BlockSet(lru)`lruNext, BlockSet(lru)`lruPrev, b`lruNext, b`lruPrev
      ensures LruValid() && lru == Moved(old(lru), b, pos)
      ensures Handles() == old(Handles())
    {
      ListAllocated();
      hide *;
      Touch(b, pos);
    }

    /** Touch leaves everything but the list alone. */
    method TouchHeld(b: Block, ghost pos: int)
      requires Filled(b) && Placed(b, pos)
      modifies this`lru, this`lruFirst, this`lruLast, BlockSet(lru)`lruNext, BlockSet(lru)`lruPrev, b`lruNext, b`lruPrev
      ensures Filled(b) && LruValid() && -1 <= pos < |old(lru)| && lru == Moved(old(lru), b, pos)
      ensures Handles() == old(Handles())
    {
      ListAllocated();
      Owned();
      hide Core, CleanBut, ShowsBut, LruValid, Items, ItemsOf, BlockSet, Moved, Handles;
      TouchKept(b, pos);
    }

    lemma PlacedParts(b: Block, pos: int)
      requires Placed(b, pos)
      ensures -1 <= pos < |lru| && BlockSet(Moved(lru, b, pos)) == blocks &&
        |Moved(lru, b, pos)| == blocksUsed <= BLOCK_COUNT
    {
      MovedIsDistinct(lru, b, pos);
    }

    lemma ListedAgain()
      requires LruValid() && BlockSet(lru) == blocks && |lru| == blocksUsed <= BLOCK_COUNT
      ensures Listed()
    {
    }

    method TouchPlaced(b: Block, ghost pos: int)
      requires Filled(b) && Placed(b, pos)
      modifies this`lru, this`lruFirst, this`lruLast, BlockSet(lru)`lruNext, BlockSet(lru)`lruPrev, b`lruNext, b`lruPrev
      ensures Filled(b) && Listed() && -1 <= pos < |old(lru)| && lru == Moved(old(lru), b, pos)
      ensures Handles() == old(Handles())
    {
      PlacedParts(b, pos);
      hide *;
      TouchHeld(b, pos);
      ListedAgain();
    }

    /** Hold leaves the list alone. */
    method HoldPlaced(b: Block, ghost pos: int)
      requires Filled(b) && Placed(b, pos)
      modifies this`prevHint, hints, b`refCount
      ensures Filled(b) && b.refCount == (old(b.refCount) + 1) % COUNTS && Placed(b, pos)
      ensures Handles() - Only(b) == old(Handles()) - Only(b)
      ensures NewestHint(b)
    {
      ListAllocated();
      hide *;
      Hold(b);
    }

    /** Lines 450-477: the block is held and becomes the most recently used one. */
    method Take(b: Block, ghost pos: int)
      requires Filled(b) && Placed(b, pos)
      modifies this`prevHint, hints, b`refCount
      modifies this`lru, this`lruFirst, this`lruLast, BlockSet(lru)`lruNext, BlockSet(lru)`lruPrev, b`lruNext, b`lruPrev
      ensures Filled(b) && Listed() && -1 <= pos < |old(lru)| && lru == Moved(old(lru), b, pos)
      ensures b.refCount == (old(b.refCount) + 1) % COUNTS
      ensures Handles() - Only(b) == old(Handles()) - Only(b)
      ensures NewestHint(b)
    {
      hide *;
      HoldPlaced(b, pos);
      TouchPlaced(b, pos);
    }

    lemma TakenShows(b: Block)
      requires Filled(b) && Listed() && lru != [] && lru[|lru| - 1] == b
      ensures b in blocks && b.data == image(b.treeItem.key)
    {
      assert b in BlockSet(lru);
    }

    lemma LastMoved(b: Block, c: seq<Block>, pos: int)
      requires -1 <= pos < |c|
      ensures Moved(c, b, pos) != [] && Moved(c, b, pos)[|Moved(c, b, pos)| - 1] == b
    {
    }

    /** Lines 424-477 but for 428-447: from the block with the right number on, unless reading fails. */
    method FillAndTake(b: Block, noread: bool, ghost pos: int) returns (ok: bool)
      requires Pending(b) && Placed(b, pos)
      modifies this`readBuffer, this`readBufferBlock, this`readBufferCnt, this`image, b`data
      modifies this`prevHint, hints, b`refCount
      modifies this`lru, this`lruFirst, this`lruLast
      modifies BlockSet(lru)`lruNext, BlockSet(lru)`lruPrev, b`lruNext, b`lruPrev
      ensures ok ==> Valid() && -1 <= pos < |old(lru)| && lru == Moved(old(lru), b, pos)
      ensures ok ==> b.refCount == 1 && !b.dirty && b in blocks && b.data == image(b.treeItem.key)
      ensures ok && !noread ==> b.data == device.blocks(b.treeItem.key)
      ensures !ok ==> Pending(b) && Placed(b, pos) && lru == old(lru) && hints[..] == old(hints[..])
      ensures !ok ==> !noread && image == old(image)
      ensures Handles() - Only(b) == old(Handles()) - Only(b)
      ensures forall m: Key :: (noread ==> m != b.treeItem.key) ==> image(m) == old(image)(m)
      ensures ok ==> NewestHint(b)
    {
      hide *;
      ListAllocated();
      Unheld(b);
      ghost var was := lru;
      ok := Fill(b, noread);
      if ok {
        Take(b, pos);
        Shown(b, was, pos);
        Referenced(b);
      }
    }

    lemma Unheld(b: Block)
      requires Pending(b)
      ensures !b.dirty && (b.refCount + 1) % COUNTS == 1
    {
    }

    // ----- a block that cannot be read -----

    /** The cache without its list and its hints. */
    ghost predicate Sound()
      reads this`blocks, this`image, this`readBuffer, this`readBufferBlock, this`readBufferCnt
      reads device, tree, Items(tree.shape), blocks`refCount, blocks`dirty, blocks`data, ItemsOf(blocks)`key
    {
      tree.Valid() && Indexed() && Buffered() && CleanBut(null) && ShowsBut(null)
    }

    /** Lines 429-431: the tree forgets a block that was to take over another number. */
    method DropFromTree(b: Block)
      requires Pending(b)
      modifies this`blocks, tree`root, tree`shape
      modifies Items(tree.shape)`left, Items(tree.shape)`right, Items(tree.shape)`parent, Items(tree.shape)`balance
      ensures Sound() && blocks == old(blocks) - {b} && b.treeItem !in Items(tree.shape)
      ensures Handles() == old(Handles()) - Only(b)
      ensures Dirty() == old(Dirty())
    {
      hide *;
      OthersShow(b);
      ghost var was, others, items := Handles(), blocks - {b}, Items(tree.shape) - {b.treeItem};
      DirtyIs();
      RemoveFromTree(b);
      blocks := others;
      DirtyIs();
      NowSound(items);
      SameWithout(b, was);
    }

    lemma DirtyWith(some: set<Block>, b: Block)
      requires !b.dirty
      ensures DirtyOf(some + {b}) == DirtyOf(some)
    {
    }

    lemma DirtyIs()
      ensures Dirty() == DirtyOf(blocks)
      ensures forall c :: c in blocks ==> allocated(c)
    {
    }

    lemma OthersShow(b: Block)
      requires Pending(b)
      ensures Core() && b in blocks && Buffered() && ShownBy(blocks - {b}) && DirtyOf(blocks - {b}) == DirtyOf(blocks)
      ensures IndexedBy(Items(tree.shape) - {b.treeItem}, blocks - {b})
      ensures forall x :: x in Items(tree.shape) ==> allocated(x)
      ensures forall x :: x in ItemsOf(blocks) ==> allocated(x)
      ensures forall x :: x in ItemsOf(blocks - {b}) ==> allocated(x)
      ensures Handles().Keys == blocks
      ensures forall c :: c in blocks - {b} ==> allocated(c) && allocated(c.treeItem)
      ensures forall c :: c in blocks - {b} ==> Handles()[c] == Handle(c.treeItem.key, c.data, c.refCount)
    {
      PendingParts(b);
      Owned();
    }

    lemma NowSound(items: set<Item>)
      requires tree.Valid() && Buffered() && Items(tree.shape) == items && IndexedBy(items, blocks) && ShownBy(blocks)
      ensures Sound()
    {
      forall m: Key | !Cached(m)
        ensures image(m) == device.blocks(m)
      {
        assert forall c :: c in blocks ==> c.treeItem.key != m;
      }
    }

    lemma SameWithout(b: Block, was: map<Block, Handle>)
      requires was.Keys == blocks + {b} && b !in blocks
      requires forall c :: c in blocks ==> was[c] == Handle(c.treeItem.key, c.data, c.refCount)
      ensures Handles() == was - Only(b)
    {
    }

    /** was is the list before its pos-th element b was taken out of the chain. */
    lemma Discarded(b: Block, was: seq<Block>, pos: int)
      requires Sound() && 0 <= pos < |was| <= BLOCK_COUNT && was[pos] == b && NoDuplicates(was)
      requires lru == Without(was, pos) && NoDuplicates(lru) && Chained(lru)
      requires lruFirst == was[0] && lruLast == was[|was| - 1]
      requires blocks == BlockSet(was) - {b} && blocksUsed == |was| - 1
      requires hints.Length == HINTCNT && prevHint < HINTCNT
      requires forall i :: 0 <= i < hints.Length && hints[i] != null ==> hints[i] in blocks + {b}
      ensures Valid() <==> 0 < pos < |was| - 1 && b !in hints[..]
    {
      forall c | c in was && c != b
        ensures c in lru
      {
        var i :| 0 <= i < |was| && was[i] == c;
        assert lru[if i < pos then i else i - 1] == c;
      }
      forall i | 0 <= i < |lru|
        ensures lru[i] == was[if i < pos then i else i + 1]
      {
      }
      assert BlockSet(lru) == blocks;
      assert b !in lru;
      assert Hinted() <==> b !in hints[..];
    }

    lemma SoundOwned()
      requires Sound()
      ensures forall x :: x in Items(tree.shape) ==> allocated(x)
      ensures forall x :: x in ItemsOf(blocks) ==> allocated(x)
      ensures forall c :: c in blocks ==> allocated(c) && allocated(c.treeItem)
    {
      ItemsAllocated(tree.shape);
      ListAllocated();
    }

    lemma InPlace(b: Block, pos: int)
      requires Pending(b) && Placed(b, pos) && pos >= 0
      ensures pos < |lru| <= BLOCK_COUNT && lru[pos] == b && NoDuplicates(lru) && Chained(lru)
      ensures lruFirst == lru[0] && lruLast == lru[|lru| - 1]
      ensures blocks == BlockSet(lru) && blocksUsed == |lru|
      ensures hints.Length == HINTCNT && prevHint < HINTCNT
      ensures forall i :: 0 <= i < hints.Length && hints[i] != null ==> hints[i] in blocks
      ensures forall x :: x in Items(tree.shape) ==> allocated(x)
    {
      Owned();
    }

    method DiscardOld(b: Block, ghost pos: int)
      requires Pending(b) && Placed(b, pos) && pos >= 0
      modifies this`lru, this`blocks, this`blocksUsed, tree`root, tree`shape
      modifies BlockSet(lru)`lruNext, BlockSet(lru)`lruPrev
      modifies Items(tree.shape)`left, Items(tree.shape)`right, Items(tree.shape)`parent, Items(tree.shape)`balance
      ensures pos < |old(lru)| && lru == Without(old(lru), pos)
      ensures Valid() <==> 0 < pos < |old(lru)| - 1 && b !in hints[..]
      ensures Handles() == old(Handles()) - Only(b)
      ensures b !in blocks && b.treeItem !in Items(tree.shape)
      ensures Dirty() == old(Dirty())
    {
      hide *;
      InPlace(b, pos);
      ListAllocated();
      ghost var was := lru;
      DropFromTree(b);
      SoundOwned();
      UnlinkNeighbours(b, pos);
      blocksUsed := blocksUsed - 1;
      Discarded(b, was, pos);
    }

    /** A block that was made for the number is given back although the tree still holds it. */
    method DiscardNew(b: Block, ghost pos: int)
      requires Pending(b) && Placed(b, pos) && pos < 0
      modifies this`blocksUsed
      ensures !Valid() && b in blocks && b.treeItem in Items(tree.shape)
      ensures pos == -1 < |lru| && Without(lru, pos) == lru
      ensures Handles() == old(Handles())
      ensures Dirty() == old(Dirty())
    {
      blocksUsed := blocksUsed - 1;
    }

    /** Lines 427-447. A block that was in the list leaves it, but the two ends of the list and the hints
        still lead to it; one that is new stays in the tree. */
    method Discard(b: Block, inTree: bool, ghost pos: int)
      requires Pending(b) && Placed(b, pos) && (inTree <==> pos >= 0)
      modifies this`lru, this`blocks, this`blocksUsed, tree`root, tree`shape
      modifies BlockSet(lru)`lruNext, BlockSet(lru)`lruPrev
      modifies Items(tree.shape)`left, Items(tree.shape)`right, Items(tree.shape)`parent, Items(tree.shape)`balance
      ensures -1 <= pos < |old(lru)| && lru == Without(old(lru), pos)
      ensures Valid() <==> 0 < pos < |old(lru)| - 1 && b !in hints[..]
      ensures Handles() - Only(b) == old(Handles()) - Only(b)
      ensures (b in blocks <==> pos < 0) && (b.treeItem in Items(tree.shape) <==> pos < 0)
      ensures Dirty() == old(Dirty())
    {
      hide *;
      if inTree {
        DiscardOld(b, pos);
      } else {
        DiscardNew(b, pos);
      }
    }

    lemma BeforeGet()
      requires Valid()
      ensures blocksUsed == |lru| <= BLOCK_COUNT
      ensures forall x :: x in Items(tree.shape) ==> allocated(x) && x in ItemsOf(blocks)
      ensures forall x :: x in ItemsOf(blocks) ==> allocated(x)
      ensures forall c :: c in BlockSet(lru) ==> allocated(c) && c in blocks
      ensures forall i :: 0 <= i < |lru| ==> lru[i] in blocks && lru[i].treeItem in ItemsOf(blocks)
      ensures forall x :: x in ItemsOf(BlockSet(lru)) ==> x in ItemsOf(blocks)
    {
      Owned();
      ListAllocated();
    }

    lemma AfterProvide(b: Block, pos: int)
      requires Pending(b) && Placed(b, pos)
      ensures forall x :: x in Items(tree.shape) ==> x == b.treeItem || x in ItemsOf(BlockSet(lru))
    {
      Owned();
    }

    /** Lines 402-477: the block is not cached. used is the block that was to hold it. */
    method GetMissing(n: Key, noread: bool) returns (b: Block?, ghost pos: int, ghost used: Block?)
      requires Valid() && !Cached(n)
      modifies this, hints, device, tree, blocks, ItemsOf(blocks)
      ensures b == used || (b == null && !noread && image == old(image) && -1 <= pos < |old(lru)|)
      ensures used == null ==> Valid() && lru == old(lru) && image == old(image) && pos == |lru| == BLOCK_COUNT
      ensures b != null ==> Valid() && -1 <= pos < |old(lru)| && lru == Moved(old(lru), b, pos)
      ensures b != null ==> b in blocks && b.treeItem.key == n && b.refCount == 1 && b.data == image(n)
      ensures b != null ==> !b.dirty && (!noread ==> b.data == device.blocks(n))
      ensures b != used ==> lru == Without(old(lru), pos)
      ensures b != used ==> (Valid() <==> 0 < pos < |old(lru)| - 1 && used !in old(hints[..]))
      ensures b != used ==> (used.treeItem in Items(tree.shape) <==> pos < 0)
      ensures |old(lru)| < BLOCK_COUNT ==> used != null && pos == -1 && fresh(used) && fresh(used.treeItem)
      ensures |old(lru)| == BLOCK_COUNT ==> old(Evictable(pos)) && (used != null ==> pos >= 0 && used == old(lru)[pos])
      ensures Handles() - Only(used) == old(Handles()) - Only(used)
      ensures forall m: Key :: (noread ==> m != n) ==> image(m) == old(image)(m)
      ensures WrittenBack(old(Dirty()), old(Handles()), old(device.blocks), Dirty(), device.blocks)
      ensures b != null ==> NewestHint(b)
    {
      hide *;
      BeforeGet();
      var inTree;
      b, inTree, pos := Provide(n);
      used := b;
      if b != null {
        AfterProvide(b, pos);
        var ok := FillAndTake(b, noread, pos);
        if !ok {
          Discard(b, inTree, pos);
          b := null;
        }
      }
    }

    lemma PlaceOf(b: Block) returns (pos: nat)
      requires Valid() && b in blocks
      ensures pos < |lru| && Filled(b) && Placed(b, pos)
      ensures forall c :: c in BlockSet(lru) ==> c in blocks
    {
      assert b in BlockSet(lru);
      pos :| 0 <= pos < |lru| && lru[pos] == b;
    }

    /** Lines 450-477 for a block that is cached. */
    method GetCached(b: Block) returns (ghost pos: int)
      requires Valid() && b in blocks
      modifies this, hints, blocks
      ensures Valid() <==> Settled(b)
      ensures image == old(image) && 0 <= pos < |old(lru)| && lru == Moved(old(lru), b, pos)
      ensures b in old(Handles()) && old(Handles())[b].number == b.treeItem.key == old(b.treeItem.key)
      ensures b.refCount == (old(Handles())[b].refs + 1) % COUNTS && b in blocks && b.data == image(b.treeItem.key)
      ensures Handles() - Only(b) == old(Handles()) - Only(b)
      ensures Dirty() == old(Dirty())
      ensures NewestHint(b)
    {
      hide *;
      pos := PlaceOf(b);
      ListAllocated();
      HandleOf(b);
      ghost var was := lru;
      Take(b, pos);
      Shown(b, was, pos);
    }

    /** A block that was in the list before the call had a handle before the call. */
    lemma HandleOf(b: Block)
      requires b in blocks
      ensures b in Handles() && Handles()[b] == Handle(b.treeItem.key, b.data, b.refCount)
    {
    }

    lemma Shown(b: Block, was: seq<Block>, pos: int)
      requires Filled(b) && Listed() && -1 <= pos < |was| && lru == Moved(was, b, pos)
      ensures b in blocks && b.data == image(b.treeItem.key)
      ensures Valid() <==> Settled(b)
    {
      LastMoved(b, was, pos);
      TakenShows(b);
    }

    /** Nothing is lost if b is given to another number now. */
    ghost predicate Settled(b: Block)
      reads b`refCount, b`dirty, b`data, b.treeItem`key, device
    {
      b.refCount > 0 || b.dirty || b.data == device.blocks(b.treeItem.key)
    }

    /** Lines 394-400: looking a block up changes nothing. */
    method Find(n: Key) returns (b: Block?)
      requires Valid()
      ensures Valid() && (b != null ==> b in blocks && b.treeItem.key == n)
      ensures b != null <==> old(Cached(n))
      ensures b != null <==> Cached(n)
      ensures Handles() == old(Handles()) && Dirty() == old(Dirty())
      ensures forall i :: Evictable(i) ==> old(Evictable(i))
    {
      ListAllocated();
      Owned();
      hide Core, Consistent, Listed, Items, ItemsOf, Cached, Handles, Evictable, BlockSet;
      b := Lookup(n);
    }

    /** cdi_cache_block_get. Nobody sees a change but the one who asks: all other handles stay as
        they are, and the image stays, too, unless a block is made without reading it. used is the
        block that was found, made or made room for the number, if there is one, and pos is where it
        stood in the list, -1 if it is new. NULL means that 256 blocks are all held, or that reading
        failed. A block that has to make room is the first one in the list that nobody holds.

        The cache stays valid if the number of references does not wrap around to 0 while the data
        differs from the medium, and when reading fails if and only if the block that had to make room
        was neither at the beginning nor at the end of the list nor one of the hints. */
    method Get(n: Key, noread: bool) returns (b: Block?, ghost pos: int, ghost used: Block?)
      requires Valid()
      modifies this, hints, device, tree, blocks, ItemsOf(blocks)
      ensures b != null ==> (Valid() <==> Settled(b))
      ensures used == null ==> Valid()
      ensures b != used ==> (Valid() <==> 0 < pos < |old(lru)| - 1 && used !in old(hints[..]))
      ensures Handles() - Only(used) == old(Handles()) - Only(used)
      ensures b == used || (b == null && !noread && !old(Cached(n)) && image == old(image) && -1 <= pos < |old(lru)|)
      ensures used == null ==>
        !old(Cached(n)) && pos == |old(lru)| == BLOCK_COUNT && lru == old(lru) && image == old(image)
      ensures b != null ==> -1 <= pos < |old(lru)| && lru == Moved(old(lru), b, pos)
      ensures b != null ==> b in blocks && b.treeItem.key == n && b.data == image(n)
      ensures b != used ==> lru == Without(old(lru), pos) && (used.treeItem in Items(tree.shape) <==> pos < 0)
      ensures old(Cached(n)) ==> b in old(Handles()) && old(Handles())[b].number == n
      ensures old(Cached(n)) ==> b.refCount == (old(Handles())[b].refs + 1) % COUNTS
      ensures b != null && !old(Cached(n)) ==> b.refCount == 1 && !b.dirty && (!noread ==> b.data == device.blocks(n))
      ensures !old(Cached(n)) && |old(lru)| < BLOCK_COUNT ==>
        used != null && pos == -1 && fresh(used) && fresh(used.treeItem)
      ensures !old(Cached(n)) && |old(lru)| == BLOCK_COUNT ==>
        old(Evictable(pos)) && (used != null ==> pos >= 0 && used == old(lru)[pos])
      ensures forall m: Key :: (noread && !old(Cached(n)) ==> m != n) ==> image(m) == old(image)(m)
      ensures WrittenBack(old(Dirty()), old(Handles()), old(device.blocks), Dirty(), device.blocks)
      ensures old(Cached(n)) ==> Dirty() == old(Dirty()) && device.blocks == old(device.blocks) && image == old(image)
      ensures b != null ==> NewestHint(b)
    {
      pos, used := -1, null;
      hide *;
      b := Find(n);
      NothingWritten(old(Dirty()), old(Handles()), old(device.blocks));
      if b == null {
        b, pos, used := GetMissing(n, noread);
        Referenced(b);
      } else {
        used := b;
        pos := GetCached(b);
      }
    }

    lemma Referenced(b: Block?)
      ensures b != null && b.refCount == 1 ==> Settled(b)
    {
    }

    // ----- what a client does with a block it holds -----

    method WriteHeld(b: Block, data: Data)
      requires Consistent() && b in blocks && b.refCount > 0
      modifies this`image, b`data
      ensures Consistent() && b.data == data
      ensures forall m: Key :: image(m) == if m == b.treeItem.key then data else old(image)(m)
    {
      hide Core, Items;
      OthersDiffer(b);
      assert Cached(b.treeItem.key);
      b.data := data;
      ghost var was, n := image, b.treeItem.key;
      image := (m: Key) => if m == n then data else was(m);
    }

    /** The client overwrites the data of a block. From here on that is what the image shows. */
    method Write(b: Block, data: Data)
      requires Valid() && b in blocks && b.refCount > 0
      modifies this`image, b`data
      ensures Valid() && b.data == data && Handles() - Only(b) == old(Handles()) - Only(b)
      ensures forall m: Key :: image(m) == if m == b.treeItem.key then data else old(image)(m)
    {
      ListAllocated();
      hide Consistent, Listed, Items, BlockSet;
      WriteHeld(b, data);
    }

    /** cdi_cache_block_dirty, lines 502-507. */
    method MarkDirty(b: Block)
      requires Valid() && b in blocks
      modifies b`dirty
      ensures Valid() && b.dirty && Dirty() == old(Dirty()) + {b}
    {
      hide Core, ShowsBut, Listed, Items, ItemsOf, BlockSet;
      BeforeRelease(b);
      b.dirty := true;
    }

    lemma BeforeRelease(b: Block)
      requires Valid() && b in blocks
      ensures forall x :: x in Items(tree.shape) ==> allocated(x)
      ensures forall x :: x in ItemsOf(blocks) ==> allocated(x)
      ensures forall c :: c in BlockSet(lru) ==> allocated(c)
      ensures forall c :: c in blocks - {b} ==> allocated(c) && allocated(c.treeItem)
      ensures forall c :: c in blocks - {b} ==> Handles()[c] == Handle(c.treeItem.key, c.data, c.refCount)
      ensures Handles().Keys == blocks
    {
      Owned();
      ListAllocated();
    }

    /** cdi_cache_block_release, lines 488-494. The cache stays consistent if and only if a client that
        gives up the last reference to a block it has changed has marked the block dirty. The count of
        a block that nobody holds wraps around. */
    method Release(b: Block)
      requires Valid() && b in blocks
      modifies b`refCount
      ensures b.refCount == if old(b.refCount) > 0 then old(b.refCount) - 1 else COUNTS - 1
      ensures Handles() - Only(b) == old(Handles()) - Only(b)
      ensures Valid() <==> Settled(b)
    {
      hide Core, Listed, Items, Handles;
      BeforeRelease(b);
      ghost var was, others := Handles(), blocks - {b};
      b.refCount := (b.refCount + COUNTS - 1) % COUNTS;
      SameElsewhere(b, was, others);
    }

    /** cdi_cache_sync between the calls of clients: the medium then shows the image of every block that
        is not held, and of every held one that was marked dirty. */
    method Flush()
      requires Valid()
      modifies this`readBuffer, device, blocks`dirty
      ensures Valid() && forall b :: b in blocks ==> !b.dirty
      ensures forall m: Key ::
        (forall b :: b in blocks && b.treeItem.key == m ==> b.refCount == 0 || old(b.dirty)) ==>
        device.blocks(m) == image(m)
    {
      ListAllocated();
      hide Consistent, Listed, Items, BlockSet, ItemsOf;
      Sync();
      AllSettled();
    }

    /** A client that marks what it has changed leaves a consistent cache behind. */
    method Store(b: Block, data: Data)
      requires Valid() && b in blocks && b.refCount > 0
      modifies this`image, b`data, b`dirty, b`refCount
      ensures Valid() && b in blocks && b.data == data && b.refCount == old(b.refCount) - 1
      ensures Dirty() == old(Dirty()) + {b} && Handles() - Only(b) == old(Handles()) - Only(b)
      ensures forall m: Key :: image(m) == if m == b.treeItem.key then data else old(image)(m)
    {
      hide *;
      ListAllocated();
      Write(b, data);
      MarkDirty(b);
      Release(b);
      HowSettled(b);
    }

    /** Looking at a cached block changes nothing that anybody can see, and loses nothing that is marked as
        changed. There has to be room for one more reference. */
    method Look(n: Key, noread: bool) returns (data: Data)
      requires Valid() && Cached(n) && forall c :: c in blocks && c.treeItem.key == n ==> c.refCount + 1 < COUNTS
      modifies this, hints, device, tree, blocks, ItemsOf(blocks)
      ensures Valid() && data == image(n) && image == old(image) && device.blocks == old(device.blocks)
      ensures Handles() == old(Handles()) && Dirty() == old(Dirty())
    {
      hide *;
      ghost var was := Handles();
      BeforeLook(n);
      var b, pos, used := Get(n, noread);
      data := b.data;
      HowSettled(b);
      Release(b);
      HowSettled(b);
      SameAgain(b, was);
    }

    lemma BeforeLook(n: Key)
      requires Valid() && forall c :: c in blocks && c.treeItem.key == n ==> c.refCount + 1 < COUNTS
      ensures forall c :: c in Handles() <==> c in blocks
      ensures forall c :: c in Handles() && Handles()[c].number == n ==>
        var h := Handles()[c];
        && (h.refs + 1) % COUNTS == h.refs + 1 && h.data == image(n)
        && (h.refs > 0 || c in Dirty() || h.data == device.blocks(n))
    {
      hide Core, Listed, Items, ItemsOf;
    }

    lemma HowSettled(b: Block)
      requires b in blocks
      ensures Settled(b) <==> b.refCount > 0 || b in Dirty() || b.data == device.blocks(b.treeItem.key)
    {
    }

    lemma SameAgain(b: Block, was: map<Block, Handle>)
      requires b in blocks && b in was && Handles() - Only(b) == was - Only(b)
      requires was[b] == Handle(b.treeItem.key, b.data, b.refCount)
      ensures Handles() == was
    {
      assert Handles()[b] == was[b];
      assert forall c :: c in Handles() && c != b ==> c in Handles() - Only(b);
      assert forall c :: c in was && c != b ==> c in was - Only(b);
    }

    // ----- the cache refines a memory -----

    /** Nobody holds a block. */
    ghost predicate Idle()
      reads this`blocks, blocks`refCount, blocks`data, ItemsOf(blocks)`key
    {
      NoneHeld(Handles())
    }

    lemma IdleFacts(n: Key)
      requires Valid() && Idle()
      ensures forall c :: c in Handles() <==> c in blocks
      ensures NoneHeld(Handles()) && Handles().Keys == blocks
      ensures forall c :: c in blocks ==> c.treeItem in ItemsOf(blocks)
      ensures forall c :: c in Handles() && Handles()[c].number == n ==>
        Handles()[c].refs == 0 && Handles()[c].data == image(n) && (c in Dirty() || image(n) == device.blocks(n))
      ensures 1 % COUNTS == 1 && 0 < 1 < COUNTS
      ensures forall pos :: Evictable(pos) && pos == |lru| ==> pos == 0
      ensures BLOCK_COUNT > 0
    {
      if |lru| > 0 {
        assert lru[0] in BlockSet(lru);
        assert lru[0] in Handles();
      }
    }

    lemma IdleAgain(b: Block, was: map<Block, Handle>)
      requires b in blocks && b.refCount == 0 && Handles() - Only(b) == was - Only(b) && NoneHeld(was)
      ensures Idle() && blocks <= was.Keys + {b}
    {
      forall c | c in Handles()
        ensures Handles()[c].refs == 0 && c in was.Keys + {b}
      {
        if c != b {
          assert c in Handles() - Only(b);
        }
      }
      assert forall c :: c in blocks ==> c in Handles();
    }

    /** A block is read. */
    method ReadOnce(n: Key) returns (ok: bool, answer: Data)
      requires Valid() && Idle()
      modifies this, hints, device, tree, blocks, ItemsOf(blocks)
      ensures forall m: Key :: image(m) == old(image)(m)
      ensures ok ==> Valid() && Idle() && answer == old(image)(n)
      ensures ok ==> forall b :: b in blocks ==>
        (b in old(blocks) || fresh(b)) && (b.treeItem in old(ItemsOf(blocks)) || fresh(b.treeItem))
    {
      hide *;
      ghost var was := Handles();
      IdleFacts(n);
      BeforeGet();
      var b, pos, used := Get(n, false);
      ok, answer := b != null, [];
      if ok {
        answer := b.data;
        HowSettled(b);
        Release(b);
        HowSettled(b);
        IdleAgain(b, was);
      }
    }

    /** A block is overwritten. While nobody holds a block that always succeeds. */
    method WriteOnce(n: Key, data: Data)
      requires Valid() && Idle()
      modifies this, hints, device, tree, blocks, ItemsOf(blocks)
      ensures Valid() && Idle() && forall m: Key :: image(m) == if m == n then data else old(image)(m)
      ensures forall b :: b in blocks ==>
        (b in old(blocks) || fresh(b)) && (b.treeItem in old(ItemsOf(blocks)) || fresh(b.treeItem))
    {
      hide *;
      ghost var was := Handles();
      IdleFacts(n);
      BeforeGet();
      var b, pos, used := Get(n, true);
      HowSettled(b);
      Store(b, data);
      IdleAgain(b, was);
    }

    method SyncOnce()
      requires Valid() && Idle()
      modifies this`readBuffer, device, blocks`dirty
      ensures Valid() && Idle() && forall m: Key :: device.blocks(m) == image(m)
    {
      hide Valid;
      BeforeGet();
      IdleFacts(0);
      HeldByNobody();
      hide *;
      Flush();
    }

    lemma HeldByNobody()
      requires Idle()
      ensures forall b :: b in blocks ==> b.refCount == 0
    {
      forall b | b in blocks
        ensures b.refCount == 0
      {
        assert b in Handles() && Handles()[b].refs == 0;
      }
    }

    /** One command; it fails only if the medium cannot be read. */
    method Do(cmd: Command) returns (ok: bool, answer: seq<Data>)
      requires Valid() && Idle()
      modifies this, hints, device, tree, blocks, ItemsOf(blocks)
      ensures ok ==> Valid() && Idle() && answer == if cmd.Read? then [old(image)(cmd.number)] else []
      ensures !ok ==> cmd.Read?
      ensures forall m: Key :: image(m) == if cmd.Write? && m == cmd.number then cmd.data else old(image)(m)
      ensures cmd.Sync? ==> forall m: Key :: device.blocks(m) == image(m)
      ensures ok ==> forall b :: b in blocks ==>
        (b in old(blocks) || fresh(b)) && (b.treeItem in old(ItemsOf(blocks)) || fresh(b.treeItem))
    {
      hide *;
      ListAllocated();
      IdleFacts(0);
      ok, answer := true, [];
      match cmd {
        case Read(n) =>
          var data;
          ok, data := ReadOnce(n);
          answer := [data];
        case Write(n, data) =>
          WriteOnce(n, data);
        case Sync =>
          SyncOnce();
      }
    }

    /** Whatever clients ask for one after the other, they get the answers of a memory, up to the first block
        that cannot be read; and a sync brings the memory to the medium. */
    method Perform(cmds: seq<Command>) returns (done: nat, answers: seq<Data>)
      requires Valid() && Idle()
      modifies this, hints, device, tree, blocks, ItemsOf(blocks)
      ensures done <= |cmds| && answers == Answers(old(image), cmds[..done])
      ensures done < |cmds| ==> cmds[done].Read?
      ensures forall n: Key :: image(n) == Value(old(image), cmds[..done], n)
      ensures done == |cmds| ==> Valid() && Idle()
      ensures 0 < done == |cmds| && cmds[done - 1].Sync? ==>
        forall n: Key :: device.blocks(n) == Value(old(image), cmds, n)
    {
      hide Valid, Idle;
      done, answers := 0, [];
      var ok := true;
      IdleFacts(0);
      while done < |cmds| && ok
        invariant done <= |cmds| && (!ok ==> done < |cmds| && cmds[done].Read?)
        invariant ok ==> Valid() && Idle()
        invariant answers == Answers(old(image), cmds[..done])
        invariant forall n: Key :: image(n) == Value(old(image), cmds[..done], n)
        invariant ok ==> forall b :: b in blocks ==> b in old(blocks) || fresh(b)
        invariant ok ==> forall x :: x in ItemsOf(blocks) ==> x in old(ItemsOf(blocks)) || fresh(x)
        invariant ok && 0 < done && cmds[done - 1].Sync? ==> forall n: Key :: device.blocks(n) == image(n)
        decreases |cmds| - done, ok
      {
        var answer;
        ok, answer := Do(cmds[done]);
        if ok {
          assert cmds[..done + 1][..done] == cmds[..done];
          answers := answers + answer;
          done := done + 1;
        }
      }
      assert cmds[..|cmds|] == cmds;
    }

    lemma AllSettled()
      requires Consistent()
      ensures forall b :: b in blocks && b.refCount == 0 && !b.dirty ==>
        device.blocks(b.treeItem.key) == image(b.treeItem.key)
      ensures forall b :: b in blocks ==> image(b.treeItem.key) == b.data
      ensures forall m: Key :: (forall b :: b in blocks ==> b.treeItem.key != m) ==> device.blocks(m) == image(m)
    {
    }
  }

  lemma EmptyCache(c: Cache, n: Key)
    requires c.blocks == {}
    ensures !c.Cached(n) && ItemsOf(c.blocks) == {} && c.Handles() == map[]
  {
  }

  lemma OnlyBlock(c: Cache, b: Block, n: Key)
    requires c.Handles() - Only(b) == map[] && b in c.Handles() && c.Handles()[b].number == n
    ensures c.blocks == {b} && ItemsOf(c.blocks) == {b.treeItem} && c.Cached(n)
    ensures c.Handles()[b] == Handle(b.treeItem.key, b.data, b.refCount) && (b in c.Dirty() <==> b.dirty)
  {
    assert forall d :: d in c.blocks && d != b ==> d in c.Handles() - Only(b);
  }

  /** A client that changes a block it has read and gives it back without marking it dirty. */
  method ForgottenChange(n: Key) returns (c: Cache, read: bool)
    ensures fresh(c) && (read ==> !c.Valid())
  {
    hide Cache.Valid, Cache.Handles, Cache.Cached, Cache.Evictable, Moved, Without, Items;
    var device := new Device(_ => []);
    c := new Cache(device);
    EmptyCache(c, n);
    var b, pos, used := c.Get(n, false);
    read := b != null;
    if read {
      c.Write(b, b.data + [0]);
      c.Release(b);
    }
  }

  /** A client that changes a block, marks it and gives it back; whatever it reads then, the change reaches
      the medium. */
  method RememberedChange(n: Key, data: Data) returns (c: Cache, written: bool)
    ensures fresh(c) && (written ==> c.Valid() && c.image(n) == c.device.blocks(n) == data)
  {
    hide Cache.Valid, Cache.Handles, Cache.Cached, Cache.Evictable, Cache.Dirty, DirtyOf, WrittenBack;
    hide Moved, Without, Items, ItemsOf, Only;
    var device := new Device(_ => []);
    c := new Cache(device);
    EmptyCache(c, n);
    var b, pos, used := c.Get(n, true);
    written := b != null;
    if written {
      c.HandleOf(b);
      OnlyBlock(c, b, n);
      c.Store(b, data);
      c.HandleOf(b);
      OnlyBlock(c, b, n);
      var seen := c.Look(n, false);
      OnlyBlock(c, b, n);
      c.Flush();
    }
  }

  /** If the first block that is asked for cannot be read, the tree is left with a block that is gone. */
  method FirstReadFails(n: Key) returns (c: Cache, read: bool)
    ensures fresh(c) && (c.Valid() <==> read) && (!read ==> c.tree.Contents() != [])
  {
    var device := new Device(_ => []);
    c := new Cache(device);
    var b, pos, used := c.Get(n, false);
    read := b != null;
  }
}
