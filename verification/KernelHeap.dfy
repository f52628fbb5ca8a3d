/** The bump heap on top of the page manager, and what the two allocators guarantee together over
    every run of block allocations, page allocations and page frees. */
module KernelHeap {
  import opened Word
  import opened PhysicalMemory

  // ---------------------------------------------------------------- the specification

  // The page manager as the heap sees it, and the heap's own counters and bump pointer.
  datatype Pool = Pool(ready: bool, free: set<nat>, total: nat, cursor: nat)

  datatype Bump = Bump(
    initialized: bool, page: u32, offset: u32,
    totalBytes: u32, usedBytes: u32, pageCount: u32, allocations: u32, failures: u32)

  datatype Memory = Memory(pool: Pool, bump: Bump)

  const EMPTY_BUMP := Bump(false, 0, 0, 0, 0, 0, 0, 0)

  // Blocks are rounded up to 8 bytes, with wrap-around.
  function AlignSize(size: u32): u32 {
    Wrap(size + 7) / 8 * 8
  }

  ghost function TakePage(pool: Pool): (r: (Pool, nat)) {
    if !pool.ready || pool.free == {} then (pool, 0)
    else
      var page := Scan(pool.free, pool.total, pool.cursor, 0);
      (pool.(free := pool.free - {page}, cursor := page + 1), page)
  }

  ghost function GivePage(pool: Pool, address: u32): Pool {
    if pool.ready && address != 0 && address % 4096 == 0 && address / 4096 < pool.total
    then pool.(free := pool.free + {address / 4096})
    else pool
  }

  function OpenPage(b: Bump, page: nat): Bump {
    b.(page := Wrap(page * 4096), offset := 0,
       pageCount := Wrap(b.pageCount + 1), totalBytes := Wrap(b.totalBytes + 4096))
  }

  function Place(b: Bump, aligned: u32): Bump {
    b.(offset := Wrap(b.offset + aligned), usedBytes := Wrap(b.usedBytes + aligned),
       allocations := Wrap(b.allocations + 1))
  }

  function Fail(b: Bump): Bump {
    b.(failures := Wrap(b.failures + 1))
  }

  predicate NeedsPage(b: Bump, aligned: u32) {
    b.page == 0 || Wrap(b.offset + aligned) > 4096
  }

  // The new memory and the block's address, or 0.
  ghost function Allocate(m: Memory, size: u32): (r: (Memory, u32)) {
    var aligned := AlignSize(size);
    if !m.bump.initialized || size == 0 then (m, 0)
    else if aligned > 4096 then (m.(bump := Fail(m.bump)), 0)
    else if !NeedsPage(m.bump, aligned) then
      (m.(bump := Place(m.bump, aligned)), Wrap(m.bump.page + m.bump.offset))
    else
      var (pool, page) := TakePage(m.pool);
      if page == 0 then (Memory(pool, Fail(m.bump)), 0)
      else (Memory(pool, Place(OpenPage(m.bump, page), aligned)), Wrap(page * 4096))
  }

  // ---------------------------------------------------------------- runs

  // What callers do with memory: blocks from the heap, pages from the page manager, pages given back.
  datatype Request = NewBlock(size: u32) | NewPage | FreePage(address: u32)

  // A returned block with the size asked for and the size it was rounded to.
  datatype Block = Block(address: nat, size: nat, granted: nat)

  // `lent` are the pages handed out and not given back, `owned` the pages the heap opened.
  datatype World = World(memory: Memory, lent: set<nat>, owned: set<nat>, blocks: seq<Block>)

  // Callers give back only pages they were handed.
  predicate Permitted(w: World, r: Request) {
    r.FreePage? ==> r.address % 4096 == 0 && r.address / 4096 in w.lent
  }

  ghost function Serve(w: World, r: Request): World {
    match r
    case NewBlock(size) =>
      var (memory, address) := Allocate(w.memory, size);
      var owned := if memory.bump.pageCount != w.memory.bump.pageCount
                   then w.owned + {memory.bump.page / 4096} else w.owned;
      World(memory, w.lent, owned,
            if address != 0 then w.blocks + [Block(address, size, AlignSize(size))] else w.blocks)
    case NewPage =>
      var (pool, page) := TakePage(w.memory.pool);
      World(w.memory.(pool := pool), if page != 0 then w.lent + {page} else w.lent, w.owned, w.blocks)
    case FreePage(address) =>
      World(w.memory.(pool := GivePage(w.memory.pool, address)), w.lent - {address / 4096}, w.owned, w.blocks)
  }

  ghost predicate RunPermitted(w: World, rs: seq<Request>)
    decreases |rs|
  {
    rs == [] || (Permitted(w, rs[0]) && RunPermitted(Serve(w, rs[0]), rs[1..]))
  }

  ghost function Run(w: World, rs: seq<Request>): World
    decreases |rs|
  {
    if rs == [] then w else Run(Serve(w, rs[0]), rs[1..])
  }

  // Every page of `boot` is free, lent or owned by the heap, and none is two of these.
  ghost predicate Partition(boot: set<nat>, free: set<nat>, lent: set<nat>, owned: set<nat>) {
    boot == free + lent + owned && free !! lent !! owned
  }

  ghost predicate PoolInv(boot: set<nat>, pool: Pool) {
    && pool.ready
    && pool.cursor <= pool.total <= MAX_PAGES
    && 0 !in boot
    && (forall p :: p in boot ==> p < pool.total)
  }

  // The open page and its fill.
  ghost predicate OpenAt(b: Bump, owned: set<nat>) {
    && b.page != 0 && b.page % 4096 == 0 && b.page / 4096 in owned
    && b.offset % 8 == 0 && b.offset <= 4096
  }

  // The counters; the last lines bound the waste.
  ghost predicate BumpInv(b: Bump, owned: set<nat>) {
    && b.initialized
    && (b.page == 0 <==> owned == {})
    && (b.page != 0 ==> OpenAt(b, owned))
    && b.offset % 8 == 0 && b.offset <= 4096
    && b.pageCount == |owned| && b.totalBytes == 4096 * |owned|
    && (owned == {} ==> b.usedBytes == 0)
    && (owned != {} ==> b.usedBytes <= 4096 * (|owned| - 1) + b.offset)
    && (|owned| == 1 ==> b.usedBytes == b.offset)
    && (|owned| > 1 ==> 2 * b.usedBytes > b.offset + 4096 * (|owned| - 1))
  }

  ghost predicate BlockInv(b: Block, bump: Bump, owned: set<nat>) {
    b.address % 8 == 0 &&
    (b.granted > 0 ==>
      && b.address / 4096 in owned
      && b.address % 4096 + b.granted <= 4096
      && (b.address / 4096 == bump.page / 4096 ==> b.address % 4096 + b.granted <= bump.offset))
  }

  predicate Apart(a: Block, b: Block) {
    || a.granted == 0 || b.granted == 0
    || a.address + a.granted <= b.address || b.address + b.granted <= a.address
  }

  ghost predicate BlocksInv(blocks: seq<Block>, bump: Bump, owned: set<nat>) {
    && (forall i :: 0 <= i < |blocks| ==> BlockInv(blocks[i], bump, owned))
    && (forall i, j :: 0 <= i < j < |blocks| ==> Apart(blocks[i], blocks[j]))
  }

  ghost predicate Inv(boot: set<nat>, w: World) {
    && PoolInv(boot, w.memory.pool)
    && Partition(boot, w.memory.pool.free, w.lent, w.owned)
    && BumpInv(w.memory.bump, w.owned)
    && BlocksInv(w.blocks, w.memory.bump, w.owned)
  }

  /** The rounded size covers the request for exactly the sizes up to 0xFFFFFFF8; above that the
      rounding wraps to 0 and the heap hands out a block of no bytes. */
  lemma GrantCovers(size: u32)
    ensures AlignSize(size) % 8 == 0
    ensures AlignSize(size) >= size <==> size <= 0xFFFF_FFF8
    ensures size <= 0xFFFF_FFF8 ==> AlignSize(size) < size + 8
    ensures size > 0xFFFF_FFF8 ==> AlignSize(size) == 0
  {
  }

  lemma TakePageKeeps(boot: set<nat>, pool: Pool)
    requires PoolInv(boot, pool) && pool.free <= boot
    ensures var (after, page) := TakePage(pool);
            && (page == 0 <==> pool.free == {})
            && (page != 0 ==> page in pool.free)
            && PoolInv(boot, after) && after.free == pool.free - {page}
  {
    hide Scan, CyclicallyFirst;
    if pool.free != {} {
      ScanInFree(pool.free, pool.total, pool.cursor);
    }
  }

  lemma InPage(page: nat, offset: nat)
    requires page % 4096 == 0 && offset < 4096
    ensures (page + offset) / 4096 == page / 4096 && (page + offset) % 4096 == offset
  {
  }

  lemma EightAligned(page: nat, offset: nat)
    requires page % 4096 == 0 && offset % 8 == 0
    ensures (page + offset) % 8 == 0
  {
    assert page == 8 * (512 * (page / 4096));
    assert page + offset == 8 * (512 * (page / 4096) + offset / 8);
  }

  lemma PlacedBlockInv(bump: Bump, owned: set<nat>, size: u32, aligned: u32)
    requires OpenAt(bump, owned) && aligned % 8 == 0 && bump.offset + aligned <= 4096
    ensures BlockInv(Block(bump.page + bump.offset, size, aligned), Place(bump, aligned), owned)
  {
    var page, offset := bump.page, bump.offset;
    assert page % 4096 == 0 && offset % 8 == 0 && page / 4096 in owned && offset <= 4096;
    hide OpenAt;
    WrapSmall(offset + aligned);
    hide Wrap;
    EightAligned(page, offset);
    if aligned > 0 {
      InPage(page, offset);
    }
  }

  lemma PlacedApart(a: Block, bump: Bump, owned: set<nat>, size: u32, aligned: u32)
    requires BlockInv(a, bump, owned) && OpenAt(bump, owned)
    requires aligned % 8 == 0 && bump.offset + aligned <= 4096
    ensures Apart(a, Block(bump.page + bump.offset, size, aligned))
    ensures BlockInv(a, Place(bump, aligned), owned)
  {
    WrapSmall(bump.offset + aligned);
  }

  lemma PlaceKeepsBlocks(blocks: seq<Block>, bump: Bump, owned: set<nat>, size: u32, aligned: u32)
    requires BlocksInv(blocks, bump, owned) && OpenAt(bump, owned)
    requires aligned % 8 == 0 && bump.offset + aligned <= 4096
    ensures BlocksInv(blocks + [Block(bump.page + bump.offset, size, aligned)], Place(bump, aligned), owned)
  {
    PlacedBlockInv(bump, owned, size, aligned);
    forall i | 0 <= i < |blocks| {
      PlacedApart(blocks[i], bump, owned, size, aligned);
    }
    hide BlockInv, Apart, Place, OpenAt;
  }

  lemma PlaceKeepsBump(b: Bump, owned: set<nat>, aligned: u32)
    requires BumpInv(b, owned) && b.page != 0 && aligned % 8 == 0 && b.offset + aligned <= 4096
    requires |owned| <= MAX_PAGES
    ensures BumpInv(Place(b, aligned), owned)
  {
    WrapSmall(b.offset + aligned);
    WrapSmall(b.usedBytes + aligned);
  }

  // Opening a page and placing the block that did not fit the old one.
  lemma OpenKeepsBump(b: Bump, owned: set<nat>, page: nat, aligned: u32)
    requires BumpInv(b, owned) && 0 < page < MAX_PAGES && page !in owned
    requires NeedsPage(b, aligned) && aligned % 8 == 0 && aligned <= 4096
    requires |owned| < MAX_PAGES
    ensures BumpInv(Place(OpenPage(b, page), aligned), owned + {page})
  {
    WrapSmall(page * 4096);
    WrapSmall(b.pageCount + 1);
    WrapSmall(b.totalBytes + 4096);
    WrapSmall(0 + aligned);
    WrapSmall(b.usedBytes + aligned);
    WrapSmall(b.offset + aligned);
    hide Wrap;
    assert |owned + {page}| == |owned| + 1;
  }

  lemma OpenKeepsBlocks(blocks: seq<Block>, bump: Bump, owned: set<nat>, page: nat)
    requires BlocksInv(blocks, bump, owned) && 0 < page < MAX_PAGES && page !in owned
    ensures BlocksInv(blocks, OpenPage(bump, page), owned + {page})
    ensures OpenAt(OpenPage(bump, page), owned + {page})
  {
    WrapSmall(page * 4096);
    hide Wrap, Apart;
    forall i | 0 <= i < |blocks|
      ensures BlockInv(blocks[i], OpenPage(bump, page), owned + {page})
    {
      assert BlockInv(blocks[i], bump, owned);
    }
  }

  lemma Moves(boot: set<nat>, free: set<nat>, lent: set<nat>, owned: set<nat>, p: nat)
    requires Partition(boot, free, lent, owned)
    ensures p in free ==> Partition(boot, free - {p}, lent + {p}, owned)
    ensures p in free ==> Partition(boot, free - {p}, lent, owned + {p})
    ensures p in lent ==> Partition(boot, free + {p}, lent - {p}, owned)
    ensures free <= boot && lent <= boot && owned <= boot && (p in free ==> p !in owned)
  {
  }

  lemma OwnedBound(boot: set<nat>, pool: Pool, lent: set<nat>, owned: set<nat>)
    requires PoolInv(boot, pool) && Partition(boot, pool.free, lent, owned)
    ensures |owned| <= MAX_PAGES
    ensures pool.free != {} ==> |owned| < MAX_PAGES
  {
    BoundedSize(owned, pool.total);
    if p :| p in pool.free {
      RoomLeft(owned, p, pool.total);
    }
  }

  lemma FillKeeps(boot: set<nat>, w: World, size: u32)
    requires Inv(boot, w) && size != 0 && AlignSize(size) <= 4096
    requires !NeedsPage(w.memory.bump, AlignSize(size))
    ensures Inv(boot, Serve(w, NewBlock(size)))
  {
    var aligned, b := AlignSize(size), w.memory.bump;
    BumpFacts(b, w.owned);
    WrapSmall(b.offset + aligned);
    WrapSmall(b.page + b.offset);
    GrantCovers(size);
    OwnedBound(boot, w.memory.pool, w.lent, w.owned);
    hide Wrap, BlocksInv, BumpInv, Partition, OpenAt, AlignSize, PoolInv;
    PlaceKeepsBump(b, w.owned, aligned);
    PlaceKeepsBlocks(w.blocks, b, w.owned, size, aligned);
  }

  // What serving a request does when it opens a page.
  lemma ServeOpens(w: World, size: u32, page: nat)
    requires w.memory.bump.initialized && size != 0 && AlignSize(size) <= 4096 && w.memory.bump.pageCount <= MAX_PAGES
    requires NeedsPage(w.memory.bump, AlignSize(size))
    requires page == TakePage(w.memory.pool).1 && 0 < page < MAX_PAGES
    ensures Serve(w, NewBlock(size)) ==
            World(Memory(TakePage(w.memory.pool).0, Place(OpenPage(w.memory.bump, page), AlignSize(size))),
                  w.lent, w.owned + {page}, w.blocks + [Block(page * 4096, size, AlignSize(size))])
  {
    WrapSmall(page * 4096);
    WrapSmall(w.memory.bump.pageCount + 1);
    hide Wrap, AlignSize, TakePage, NeedsPage;
  }

  lemma PageBelowTotal(boot: set<nat>, pool: Pool, page: nat)
    requires PoolInv(boot, pool) && page in boot
    ensures 0 < page < MAX_PAGES
  {
  }

  lemma OpenKeeps(boot: set<nat>, w: World, size: u32, page: nat)
    requires Inv(boot, w) && size != 0 && AlignSize(size) <= 4096
    requires NeedsPage(w.memory.bump, AlignSize(size))
    requires page == TakePage(w.memory.pool).1 && page != 0
    ensures Inv(boot, Serve(w, NewBlock(size)))
  {
    hide TakePage, BlocksInv, BumpInv, Partition, OpenAt, AlignSize, PoolInv, NeedsPage, Wrap, Serve;
    var aligned, b, pool := AlignSize(size), w.memory.bump, w.memory.pool;
    Moves(boot, pool.free, w.lent, w.owned, page);
    TakePageKeeps(boot, pool);
    OwnedBound(boot, pool, w.lent, w.owned);
    BumpFacts(b, w.owned);
    GrantCovers(size);
    PageBelowTotal(boot, pool, page);
    WrapSmall(page * 4096);
    OpenKeepsBump(b, w.owned, page, aligned);
    OpenKeepsBlocks(w.blocks, b, w.owned, page);
    PlaceKeepsBlocks(w.blocks, OpenPage(b, page), w.owned + {page}, size, aligned);
    ServeOpens(w, size, page);
  }

  lemma ExhaustedKeeps(boot: set<nat>, w: World, size: u32)
    requires Inv(boot, w) && size != 0 && AlignSize(size) <= 4096
    requires NeedsPage(w.memory.bump, AlignSize(size)) && TakePage(w.memory.pool).1 == 0
    ensures Inv(boot, Serve(w, NewBlock(size)))
  {
    FailKeeps(w.blocks, w.memory.bump, w.owned);
    TakePageKeeps(boot, w.memory.pool);
    hide TakePage, BlocksInv, BumpInv, Partition, AlignSize, PoolInv, NeedsPage;
  }

  lemma NewBlockKeeps(boot: set<nat>, w: World, size: u32)
    requires Inv(boot, w)
    ensures Inv(boot, Serve(w, NewBlock(size)))
  {
    BumpFacts(w.memory.bump, w.owned);
    if size == 0 {
    } else if AlignSize(size) > 4096 {
      FailKeeps(w.blocks, w.memory.bump, w.owned);
      hide AlignSize, BlocksInv, BumpInv;
    } else {
      hide Inv, Serve, AlignSize, NeedsPage;
      if NeedsPage(w.memory.bump, AlignSize(size)) {
        var page := TakePage(w.memory.pool).1;
        if page == 0 {
          ExhaustedKeeps(boot, w, size);
        } else {
          OpenKeeps(boot, w, size, page);
        }
      } else {
        FillKeeps(boot, w, size);
      }
    }
  }

  lemma BumpFacts(b: Bump, owned: set<nat>)
    requires BumpInv(b, owned)
    ensures b.initialized && (b.page == 0 <==> owned == {}) && (b.page != 0 ==> OpenAt(b, owned))
    ensures b.pageCount == |owned|
  {
  }

  lemma FailKeeps(blocks: seq<Block>, b: Bump, owned: set<nat>)
    requires BumpInv(b, owned) && BlocksInv(blocks, b, owned)
    ensures BumpInv(Fail(b), owned) && BlocksInv(blocks, Fail(b), owned)
  {
    forall i | 0 <= i < |blocks| ensures BlockInv(blocks[i], Fail(b), owned) {
      assert BlockInv(blocks[i], b, owned);
    }
  }

  lemma NewPageKeeps(boot: set<nat>, w: World)
    requires Inv(boot, w)
    ensures Inv(boot, Serve(w, NewPage))
  {
    var pool := w.memory.pool;
    Moves(boot, pool.free, w.lent, w.owned, TakePage(pool).1);
    TakePageKeeps(boot, pool);
    hide TakePage, BlocksInv, BumpInv, Partition, PoolInv;
  }

  lemma FreePageKeeps(boot: set<nat>, w: World, address: u32)
    requires Inv(boot, w) && Permitted(w, FreePage(address))
    ensures Inv(boot, Serve(w, FreePage(address)))
  {
    var pool, p := w.memory.pool, address / 4096;
    Moves(boot, pool.free, w.lent, w.owned, p);
    hide BlocksInv, BumpInv, Partition;
    assert p in boot && p < pool.total && p != 0 && address != 0;
    assert GivePage(pool, address) == pool.(free := pool.free + {p});
    hide GivePage;
  }

  lemma ServeKeeps(boot: set<nat>, w: World, r: Request)
    requires Inv(boot, w) && Permitted(w, r)
    ensures Inv(boot, Serve(w, r))
  {
    hide Inv, Serve;
    match r
    case NewBlock(size) => NewBlockKeeps(boot, w, size);
    case NewPage => NewPageKeeps(boot, w);
    case FreePage(address) => FreePageKeeps(boot, w, address);
  }

  /** Every run keeps the partition of the boot-time pages, the counters, and the block layout. */
  lemma {:induction false} RunKeeps(boot: set<nat>, w: World, rs: seq<Request>)
    requires Inv(boot, w) && RunPermitted(w, rs)
    ensures Inv(boot, Run(w, rs))
    decreases |rs|
  {
    if rs != [] {
      hide Inv, Serve;
      ServeKeeps(boot, w, rs[0]);
      RunKeeps(boot, Serve(w, rs[0]), rs[1..]);
    }
  }

  // The world just after initialisation: nothing lent, nothing opened, no block returned.
  ghost function Fresh(pool: Pool): World {
    World(Memory(pool, EMPTY_BUMP.(initialized := true)), {}, {}, [])
  }

  // A request the rounding can represent.
  predicate Sized(b: Block) {
    0 < b.size <= 0xFFFF_FFF8
  }

  ghost predicate BlockSafe(b: Block, boot: set<nat>) {
    && b.address % 8 == 0
    && b.address / 4096 in boot
    && b.address % 4096 + b.size <= 4096
  }

  /** After any run, the blocks of at most 0xFFFFFFF8 bytes are 8-aligned, lie inside one boot-free page
      each, and do not overlap. No free or lent page holds one. */
  lemma RunBlocksSafe(boot: set<nat>, pool: Pool, rs: seq<Request>)
    requires PoolInv(boot, pool) && pool.free == boot && RunPermitted(Fresh(pool), rs)
    ensures var w := Run(Fresh(pool), rs);
            && boot == w.memory.pool.free + w.lent + w.owned
            && (forall i :: 0 <= i < |w.blocks| && Sized(w.blocks[i]) ==>
                  && BlockSafe(w.blocks[i], boot)
                  && w.blocks[i].address / 4096 !in w.memory.pool.free + w.lent)
            && (forall i, j :: 0 <= i < j < |w.blocks| && Sized(w.blocks[i]) && Sized(w.blocks[j]) ==>
                  w.blocks[i].address + w.blocks[i].size <= w.blocks[j].address
                  || w.blocks[j].address + w.blocks[j].size <= w.blocks[i].address)
  {
    assert Inv(boot, Fresh(pool));
    RunKeeps(boot, Fresh(pool), rs);
    RunGrants(Fresh(pool), rs);
    var w := Run(Fresh(pool), rs);
    hide Run, RunPermitted, BumpInv;
    forall i | 0 <= i < |w.blocks| && Sized(w.blocks[i])
      ensures w.blocks[i].granted >= w.blocks[i].size && BlockInv(w.blocks[i], w.memory.bump, w.owned)
    {
      GrantCovers(w.blocks[i].size);
    }
  }

  ghost predicate Granted(blocks: seq<Block>) {
    forall i :: 0 <= i < |blocks| ==>
      0 < blocks[i].size <= U32_MAX && blocks[i].granted == AlignSize(blocks[i].size)
  }

  lemma {:induction false} RunGrants(w: World, rs: seq<Request>)
    requires Granted(w.blocks)
    ensures Granted(Run(w, rs).blocks)
    decreases |rs|
  {
    if rs != [] {
      assert Granted(Serve(w, rs[0]).blocks) by { hide Allocate, AlignSize, TakePage, GivePage; }
      hide Serve, Granted;
      RunGrants(Serve(w, rs[0]), rs[1..]);
    }
  }

  // ---------------------------------------------------------------- used bytes and waste

  function SumGranted(blocks: seq<Block>): nat {
    if blocks == [] then 0 else SumGranted(blocks[..|blocks| - 1]) + blocks[|blocks| - 1].granted
  }

  lemma SumGrantedMore(blocks: seq<Block>, b: Block)
    ensures SumGranted(blocks + [b]) == SumGranted(blocks) + b.granted
  {
    assert (blocks + [b])[..|blocks + [b]| - 1] == blocks;
  }

  lemma {:induction false} SumGrantedPositive(blocks: seq<Block>)
    ensures SumGranted(blocks) > 0 <==> exists i :: 0 <= i < |blocks| && blocks[i].granted > 0
    decreases |blocks|
  {
    if blocks != [] {
      var most := blocks[..|blocks| - 1];
      SumGrantedPositive(most);
      if SumGranted(most) > 0 {
        var i :| 0 <= i < |most| && most[i].granted > 0;
        assert blocks[i].granted > 0;
      }
      if i :| 0 <= i < |blocks| && blocks[i].granted > 0 {
        assert i < |most| ==> most[i].granted > 0;
      }
    }
  }

  // The used bytes are the bytes of the returned blocks.
  ghost predicate UsedInv(w: World) {
    w.memory.bump.usedBytes == SumGranted(w.blocks)
  }

  lemma UsedBound(boot: set<nat>, w: World)
    requires Inv(boot, w)
    ensures w.memory.bump.usedBytes <= 4096 * MAX_PAGES && w.memory.bump.pageCount <= MAX_PAGES
    ensures w.memory.bump.initialized
    ensures w.memory.bump.page < 0x4000_0000 && w.memory.bump.offset <= 4096
  {
    hide BlocksInv;
    OwnedBound(boot, w.memory.pool, w.lent, w.owned);
  }

  lemma FillUses(boot: set<nat>, w: World, size: u32)
    requires Inv(boot, w) && UsedInv(w) && size != 0 && AlignSize(size) <= 4096
    requires !NeedsPage(w.memory.bump, AlignSize(size))
    ensures UsedInv(Serve(w, NewBlock(size)))
  {
    hide Inv, AlignSize, SumGranted, Wrap;
    var aligned, b := AlignSize(size), w.memory.bump;
    UsedBound(boot, w);
    WrapSmall(b.offset + aligned);
    WrapSmall(b.page + b.offset);
    WrapSmall(b.usedBytes + aligned);
    SumGrantedMore(w.blocks, Block(b.page + b.offset, size, aligned));
  }

  lemma TakenBound(boot: set<nat>, w: World, page: nat)
    requires Inv(boot, w) && page == TakePage(w.memory.pool).1
    ensures page < MAX_PAGES
  {
    var pool := w.memory.pool;
    Moves(boot, pool.free, w.lent, w.owned, page);
    TakePageKeeps(boot, pool);
    hide BumpInv, BlocksInv, TakePage, Partition;
  }

  lemma OpenUses(boot: set<nat>, w: World, size: u32, page: nat)
    requires Inv(boot, w) && UsedInv(w) && size != 0 && AlignSize(size) <= 4096
    requires NeedsPage(w.memory.bump, AlignSize(size))
    requires page == TakePage(w.memory.pool).1 && page != 0
    ensures UsedInv(Serve(w, NewBlock(size)))
  {
    hide Inv, AlignSize, SumGranted, Wrap, TakePage, NeedsPage, Serve;
    UsedBound(boot, w);
    TakenBound(boot, w, page);
    WrapSmall(w.memory.bump.usedBytes + AlignSize(size));
    ServeOpens(w, size, page);
    SumGrantedMore(w.blocks, Block(page * 4096, size, AlignSize(size)));
  }

  lemma ServeUses(boot: set<nat>, w: World, r: Request)
    requires Inv(boot, w) && UsedInv(w)
    ensures UsedInv(Serve(w, r))
  {
    if r.NewBlock? && r.size != 0 && AlignSize(r.size) <= 4096 {
      var page := TakePage(w.memory.pool).1;
      if !NeedsPage(w.memory.bump, AlignSize(r.size)) {
        hide *;
        FillUses(boot, w, r.size);
      } else if page != 0 {
        hide *;
        OpenUses(boot, w, r.size, page);
      } else {
        hide Inv, AlignSize, NeedsPage, TakePage, SumGranted;
      }
    } else {
      hide Inv, AlignSize, NeedsPage, TakePage, SumGranted, GivePage;
    }
  }

  /** Over every run the used bytes are the rounded sizes of the returned blocks added up. */
  lemma {:induction false} RunUses(boot: set<nat>, w: World, rs: seq<Request>)
    requires Inv(boot, w) && UsedInv(w) && RunPermitted(w, rs)
    ensures UsedInv(Run(w, rs))
    decreases |rs|
  {
    if rs != [] {
      hide Inv, Serve, UsedInv;
      ServeKeeps(boot, w, rs[0]);
      ServeUses(boot, w, rs[0]);
      RunUses(boot, Serve(w, rs[0]), rs[1..]);
    }
  }

  lemma GrantedSized(blocks: seq<Block>)
    requires Granted(blocks)
    ensures SumGranted(blocks) > 0 <==> exists i :: 0 <= i < |blocks| && Sized(blocks[i])
  {
    SumGrantedPositive(blocks);
    forall i | 0 <= i < |blocks| ensures blocks[i].granted > 0 <==> Sized(blocks[i]) {
      GrantCovers(blocks[i].size);
    }
    hide SumGranted, AlignSize;
  }

  /** In every reachable state with a page open the pages hold `totalBytes`, of which the blocks use
      `usedBytes`; more than half is used but for one page exactly when some returned block is of at most
      0xFFFFFFF8 bytes. */
  lemma RunWasteBounded(boot: set<nat>, pool: Pool, rs: seq<Request>)
    requires PoolInv(boot, pool) && pool.free == boot && RunPermitted(Fresh(pool), rs)
    ensures var w := Run(Fresh(pool), rs);
            var b := w.memory.bump;
            && b.usedBytes == SumGranted(w.blocks)
            && (b.pageCount > 0 ==>
                  && b.totalBytes == 4096 * b.pageCount && b.usedBytes <= b.totalBytes
                  && (2 * b.usedBytes > 4096 * (b.pageCount - 1) <==>
                      exists i :: 0 <= i < |w.blocks| && Sized(w.blocks[i])))
  {
    assert Inv(boot, Fresh(pool)) && UsedInv(Fresh(pool));
    RunKeeps(boot, Fresh(pool), rs);
    RunUses(boot, Fresh(pool), rs);
    RunGrants(Fresh(pool), rs);
    GrantedSized(Run(Fresh(pool), rs).blocks);
    hide Run, RunPermitted, SumGranted, Sized, Granted;
  }

  // Only sized blocks so far, and a page is only opened for one.
  ghost predicate AllSized(w: World) {
    && (forall i :: 0 <= i < |w.blocks| ==> Sized(w.blocks[i]))
    && (w.memory.bump.pageCount > 0 ==> w.blocks != [])
  }

  predicate Modest(r: Request) {
    r.NewBlock? ==> r.size <= 0xFFFF_FFF8
  }

  lemma ServeSized(boot: set<nat>, w: World, r: Request)
    requires Inv(boot, w) && AllSized(w) && Modest(r)
    ensures AllSized(Serve(w, r))
  {
    if r.NewBlock? && r.size != 0 && AlignSize(r.size) <= 4096 {
      var page := TakePage(w.memory.pool).1;
      UsedBound(boot, w);
      TakenBound(boot, w, page);
      hide Inv, AlignSize, TakePage, Wrap;
      if NeedsPage(w.memory.bump, AlignSize(r.size)) && page != 0 {
        ServeOpens(w, r.size, page);
        hide Serve;
      }
    } else {
      hide Inv, AlignSize, NeedsPage, TakePage, GivePage;
    }
  }

  lemma {:induction false} RunSized(boot: set<nat>, w: World, rs: seq<Request>)
    requires Inv(boot, w) && AllSized(w) && RunPermitted(w, rs) && forall i :: 0 <= i < |rs| ==> Modest(rs[i])
    ensures AllSized(Run(w, rs))
    decreases |rs|
  {
    if rs != [] {
      hide Inv, Serve, AllSized, Modest;
      ServeKeeps(boot, w, rs[0]);
      ServeSized(boot, w, rs[0]);
      RunSized(boot, Serve(w, rs[0]), rs[1..]);
    }
  }

  /** The waste bound holds over every run in which no more than 0xFFFFFFF8 bytes are asked for at once. */
  lemma ModestWasteBounded(boot: set<nat>, pool: Pool, rs: seq<Request>)
    requires PoolInv(boot, pool) && pool.free == boot && RunPermitted(Fresh(pool), rs)
    requires forall i :: 0 <= i < |rs| ==> Modest(rs[i])
    ensures var b := Run(Fresh(pool), rs).memory.bump;
            b.pageCount > 0 ==> 2 * b.usedBytes > 4096 * (b.pageCount - 1)
  {
    assert Inv(boot, Fresh(pool)) && AllSized(Fresh(pool));
    RunSized(boot, Fresh(pool), rs);
    RunWasteBounded(boot, pool, rs);
    hide Run, RunPermitted, PoolInv, Sized;
    var w := Run(Fresh(pool), rs);
    assert w.blocks != [] ==> Sized(w.blocks[0]);
  }

  /** And it fails after one request for a byte more, on any pool with a free page. */
  lemma WasteUnbounded(pool: Pool)
    requires PoolInv(pool.free, pool) && pool.free != {}
    ensures var b := Run(Fresh(pool), [NewBlock(0xFFFF_FFF9)]).memory.bump;
            b.pageCount == 1 && b.usedBytes == 0 && !(2 * b.usedBytes > 4096 * (b.pageCount - 1))
  {
    var w, r := Fresh(pool), NewBlock(0xFFFF_FFF9);
    GrantCovers(0xFFFF_FFF9);
    TakePageKeeps(pool.free, pool);
    ServeOpens(w, 0xFFFF_FFF9, TakePage(pool).1);
    WrapSmall(0);
    WrapSmall(1);
    hide TakePage, AlignSize, Wrap, Serve;
    assert Run(w, [r]) == Serve(w, r) by { assert [r][1..] == []; }
  }

  // ---------------------------------------------------------------- which requests are served

  // The bytes a request takes: its size rounded up to 8; a size that cannot be rounded takes none.
  function Taken(size: u32): nat {
    if size > 0xFFFF_FFF8 then 0 else (size + 7) / 8 * 8
  }

  lemma TakenIsAligned(size: u32)
    ensures AlignSize(size) == Taken(size)
  {
  }

  // The open page has room behind its offset.
  predicate HasRoom(b: Bump, bytes: nat) {
    b.page != 0 && b.offset + bytes <= 4096
  }

  // The counters after a block of so many bytes is placed at an offset of a page, and so many pages opened.
  predicate Placed(b: Bump, c: Bump, page: int, offset: int, bytes: int, opens: int) {
    && c.initialized == b.initialized && c.page == page && c.offset == offset + bytes
    && c.usedBytes == b.usedBytes + bytes
    && c.pageCount == b.pageCount + opens && c.totalBytes == b.totalBytes + 4096 * opens
    && c.allocations == Wrap(b.allocations + 1) && c.failures == b.failures
  }

  // What a request must do to the memory: the new memory and the address.
  ghost predicate ServesRight(m: Memory, size: u32, after: Memory, address: u32) {
    var b, bytes := m.bump, Taken(size);
    if size == 0 then after == m && address == 0
    else if bytes <= 4096 && HasRoom(b, bytes) then
      && address == b.page + b.offset && address != 0 && after.pool == m.pool
      && Placed(b, after.bump, b.page, b.offset, bytes, 0)
    else if bytes <= 4096 && m.pool.free != {} then
      var page := address / 4096;
      && address % 4096 == 0 && address != 0
      && m.pool.total > 0 && CyclicallyFirst(m.pool.free, m.pool.total, m.pool.cursor, page)
      && after.pool == m.pool.(free := m.pool.free - {page}, cursor := page + 1)
      && Placed(b, after.bump, address, 0, bytes, 1)
    else
      address == 0 && after == m.(bump := b.(failures := Wrap(b.failures + 1)))
  }

  lemma RoomServed(boot: set<nat>, w: World, size: u32)
    requires Inv(boot, w) && size != 0 && Taken(size) <= 4096 && HasRoom(w.memory.bump, Taken(size))
    ensures ServesRight(w.memory, size, Allocate(w.memory, size).0, Allocate(w.memory, size).1)
  {
    var b := w.memory.bump;
    hide Inv, AlignSize, TakePage, CyclicallyFirst;
    UsedBound(boot, w);
    TakenIsAligned(size);
    WrapSmall(b.offset + Taken(size));
    WrapSmall(b.page + b.offset);
    WrapSmall(b.usedBytes + Taken(size));
    hide Wrap, Taken;
  }

  lemma PoolServed(boot: set<nat>, w: World, size: u32)
    requires Inv(boot, w) && size != 0 && Taken(size) <= 4096 && !HasRoom(w.memory.bump, Taken(size))
    requires w.memory.pool.free != {}
    ensures ServesRight(w.memory, size, Allocate(w.memory, size).0, Allocate(w.memory, size).1)
  {
    hide Inv, AlignSize, Scan, CyclicallyFirst, Taken, Wrap;
    var b, pool, bytes := w.memory.bump, w.memory.pool, Taken(size);
    UsedBound(boot, w);
    CountersBound(boot, w);
    PoolFacts(boot, w);
    TakenIsAligned(size);
    ScanIsNextFit(pool.free, pool.total, pool.cursor);
    ScanInFree(pool.free, pool.total, pool.cursor);
    var page := TakePage(pool).1;
    TakenBound(boot, w, page);
    WrapSmall(page * 4096);
    WrapSmall(0 + bytes);
    WrapSmall(b.pageCount + 1);
    WrapSmall(b.totalBytes + 4096);
    WrapSmall(b.offset + bytes);
    WrapSmall(b.usedBytes + bytes);
    PageAddress(page);
  }

  lemma PageAddress(page: nat)
    ensures page * 4096 / 4096 == page && page * 4096 % 4096 == 0
  {
  }

  lemma NoneServed(boot: set<nat>, w: World, size: u32)
    requires Inv(boot, w) && size != 0 && Taken(size) <= 4096 && !HasRoom(w.memory.bump, Taken(size))
    requires w.memory.pool.free == {}
    ensures ServesRight(w.memory, size, Allocate(w.memory, size).0, Allocate(w.memory, size).1)
  {
    hide Inv, AlignSize, Scan, CyclicallyFirst, Taken, Wrap;
    UsedBound(boot, w);
    TakenIsAligned(size);
    WrapSmall(w.memory.bump.offset + Taken(size));
  }

  lemma AnyServed(boot: set<nat>, w: World, size: u32)
    requires Inv(boot, w)
    ensures ServesRight(w.memory, size, Allocate(w.memory, size).0, Allocate(w.memory, size).1)
  {
    hide Inv, AlignSize, TakePage, Taken, Wrap, HasRoom, CyclicallyFirst;
    UsedBound(boot, w);
    TakenIsAligned(size);
    if size != 0 && Taken(size) <= 4096 {
      hide Allocate, ServesRight;
      if HasRoom(w.memory.bump, Taken(size)) {
        RoomServed(boot, w, size);
      } else if w.memory.pool.free != {} {
        PoolServed(boot, w, size);
      } else {
        NoneServed(boot, w, size);
      }
    }
  }

  /** In every reachable state a request is served exactly when it can be: from the open page when its rounded
      size fits behind the offset, at page plus offset and with the pool untouched; else from the cyclically
      first free page; else, or when it is larger than a page, it is refused and counted. */
  lemma RequestsServed(boot: set<nat>, pool: Pool, rs: seq<Request>, size: u32)
    requires PoolInv(boot, pool) && pool.free == boot && RunPermitted(Fresh(pool), rs)
    ensures var m := Run(Fresh(pool), rs).memory;
            ServesRight(m, size, Allocate(m, size).0, Allocate(m, size).1)
  {
    assert Inv(boot, Fresh(pool));
    RunKeeps(boot, Fresh(pool), rs);
    hide Run, RunPermitted, Fresh, Inv, ServesRight, Allocate;
    AnyServed(boot, Run(Fresh(pool), rs), size);
  }

  /** So a request of 1 to 4096 bytes returns a block if and only if the open page has room or a page is free. */
  lemma ServedExactly(boot: set<nat>, pool: Pool, rs: seq<Request>, size: u32)
    requires PoolInv(boot, pool) && pool.free == boot && RunPermitted(Fresh(pool), rs)
    requires 0 < size <= 4096
    ensures var m := Run(Fresh(pool), rs).memory;
            Allocate(m, size).1 != 0 <==>
            (m.bump.page != 0 && m.bump.offset + (size + 7) / 8 * 8 <= 4096) || m.pool.free != {}
  {
    RequestsServed(boot, pool, rs, size);
    hide Run, RunPermitted, Allocate, PoolInv, CyclicallyFirst;
  }

  lemma CountersBound(boot: set<nat>, w: World)
    requires Inv(boot, w)
    ensures w.memory.bump.totalBytes <= 4096 * MAX_PAGES
  {
    hide BlocksInv;
    OwnedBound(boot, w.memory.pool, w.lent, w.owned);
  }

  lemma PoolFacts(boot: set<nat>, w: World)
    requires Inv(boot, w)
    ensures w.memory.pool.ready && w.memory.pool.cursor <= w.memory.pool.total
    ensures forall p :: p in w.memory.pool.free ==> 0 < p < w.memory.pool.total
    ensures w.memory.pool.total <= MAX_PAGES
  {
  }

  function Asks(r: Request): nat {
    if r.NewBlock? && r.size != 0 then 1 else 0
  }

  // The requests for a block of at least one byte.
  function BlockRequests(rs: seq<Request>): nat {
    if rs == [] then 0 else Asks(rs[0]) + BlockRequests(rs[1..])
  }

  // The two counters, for a world in which so many blocks were asked for.
  ghost predicate CountInv(w: World, asked: nat) {
    && |w.blocks| <= asked
    && w.memory.bump.allocations == Wrap(|w.blocks|) && w.memory.bump.failures == Wrap(asked - |w.blocks|)
  }

  lemma ServeCounts(boot: set<nat>, w: World, r: Request, asked: nat)
    requires Inv(boot, w) && CountInv(w, asked)
    ensures CountInv(Serve(w, r), asked + Asks(r))
  {
    WrapAdd(|w.blocks|, 1);
    WrapAdd(asked - |w.blocks|, 1);
    hide Inv, Wrap, Taken, AlignSize, TakePage, GivePage, HasRoom, CyclicallyFirst;
    if r.NewBlock? {
      AnyServed(boot, w, r.size);
      hide Allocate;
    }
  }

  /** Over every run `allocations` is the number of blocks returned and `failures` that of the requests for at
      least one byte that got none, modulo 2^32. */
  lemma {:induction false} RunCounts(boot: set<nat>, w: World, rs: seq<Request>, asked: nat)
    requires Inv(boot, w) && RunPermitted(w, rs) && CountInv(w, asked)
    ensures CountInv(Run(w, rs), asked + BlockRequests(rs))
    decreases |rs|
  {
    hide Inv, Serve, CountInv, Asks;
    if rs != [] {
      var next := Serve(w, rs[0]);
      ServeKeeps(boot, w, rs[0]);
      ServeCounts(boot, w, rs[0], asked);
      RunCounts(boot, next, rs[1..], asked + Asks(rs[0]));
    }
  }

  /** The two counters after initialisation and any run. */
  lemma RequestsCounted(boot: set<nat>, pool: Pool, rs: seq<Request>)
    requires PoolInv(boot, pool) && pool.free == boot && RunPermitted(Fresh(pool), rs)
    ensures var w := Run(Fresh(pool), rs);
            && w.memory.bump.allocations == Wrap(|w.blocks|)
            && |w.blocks| <= BlockRequests(rs)
            && w.memory.bump.failures == Wrap(BlockRequests(rs) - |w.blocks|)
  {
    WrapSmall(0);
    assert Inv(boot, Fresh(pool));
    RunCounts(boot, Fresh(pool), rs, 0);
    hide Run, RunPermitted, Inv;
  }

  /** The two allocators composed with the boot map: no block touches low memory, the kernel image or
      the boot record, whatever is requested. */
  lemma BlocksAvoidKernel(es: seq<MapEntry>, kernelEnd: u32, infoAddress: u32, pool: Pool, rs: seq<Request>)
    requires KERNEL_START <= kernelEnd <= 0xFFFF_F000
    requires pool.ready && pool.cursor == 0 && pool.total == PagesFor(HighestFrom(LOW_LIMIT, es))
    requires pool.free == MapFreeSet(es, kernelEnd, infoAddress)
    requires RunPermitted(Fresh(pool), rs)
    ensures var w := Run(Fresh(pool), rs);
            forall i :: 0 <= i < |w.blocks| && Sized(w.blocks[i]) ==>
              var b := w.blocks[i];
              && 0x10_0000 <= b.address && kernelEnd <= b.address
              && (infoAddress != 0 ==> b.address + b.size <= infoAddress || infoAddress + 4096 <= b.address)
  {
    var boot, w := pool.free, Run(Fresh(pool), rs);
    BootPoolInv(es, kernelEnd, infoAddress, pool);
    RunBlocksSafe(boot, pool, rs);
    forall i | 0 <= i < |w.blocks| && Sized(w.blocks[i])
      ensures var b := w.blocks[i];
              && 0x10_0000 <= b.address && kernelEnd <= b.address
              && (infoAddress != 0 ==> b.address + b.size <= infoAddress || infoAddress + 4096 <= b.address)
    {
      var b := w.blocks[i];
      assert BlockSafe(b, boot);
      hide Run, RunPermitted, PagesFor, MapFreeSet, Usable;
      FreeIsAllowed(es, kernelEnd, infoAddress, b.address / 4096);
    }
  }

  lemma BootPoolInv(es: seq<MapEntry>, kernelEnd: u32, infoAddress: u32, pool: Pool)
    requires KERNEL_START <= kernelEnd <= 0xFFFF_F000
    requires pool.ready && pool.cursor == 0 && pool.total == PagesFor(HighestFrom(LOW_LIMIT, es))
    requires pool.free == MapFreeSet(es, kernelEnd, infoAddress)
    ensures PoolInv(pool.free, pool)
  {
    PagesForBound(HighestFrom(LOW_LIMIT, es));
    LowMemoryReserved();
    hide PagesFor, HighestFrom, OffLimits, Usable, Reserves;
    forall p | p in pool.free ensures p < pool.total {
      FreeIsAllowed(es, kernelEnd, infoAddress, p);
    }
  }

  // ---------------------------------------------------------------- the heap

  class Heap {
    const pages: PageManager
    var initialized: bool
    var currentPage: u32
    var currentOffset: u32
    var totalBytes: u32
    var usedBytes: u32
    var pageCount: u32
    var allocationCount: u32
    var failedAllocations: u32

    ghost function View(): Memory
      reads this, pages, pages.bitmap
    {
      Memory(Pool(pages.initialized, pages.Free(), pages.totalPages, pages.nextSearch),
             Bump(initialized, currentPage, currentOffset,
                  totalBytes, usedBytes, pageCount, allocationCount, failedAllocations))
    }

    ghost predicate Valid()
      reads this, pages, pages.bitmap
    {
      pages.Valid() && (initialized ==> pages.initialized)
    }

    constructor (pages: PageManager)
      requires pages.Valid()
      ensures this.pages == pages && Valid()
      ensures View().bump == EMPTY_BUMP.(initialized := pages.initialized)
    {
      this.pages := pages;
      initialized := pages.initialized;
      currentPage, currentOffset := 0, 0;
      totalBytes, usedBytes, pageCount, allocationCount, failedAllocations := 0, 0, 0, 0, 0;
    }

    method NewPage() returns (ok: bool)
      requires Valid()
      modifies this, pages, pages.bitmap
      ensures Valid()
      ensures var (pool, page) := TakePage(old(View().pool));
              && View().pool == pool
              && ok == (page != 0)
              && View().bump == if ok then OpenPage(old(View().bump), page) else Fail(old(View().bump))
    {
      hide FreeIn, CyclicallyFirst, Scan, Wrap;
      var page := pages.AllocPage();
      if page == 0 {
        failedAllocations := Wrap(failedAllocations + 1);
        return false;
      }
      WrapSmall(page);
      currentPage, currentOffset := page, 0;
      pageCount := Wrap(pageCount + 1);
      totalBytes := Wrap(totalBytes + 4096);
      return true;
    }

    method Kmalloc(size: u32) returns (result: u32)
      requires Valid()
      modifies this, pages, pages.bitmap
      ensures Valid()
      ensures (View(), result) == Allocate(old(View()), size)
    {
      hide FreeIn, CyclicallyFirst, Scan, Wrap, TakePage;
      if !initialized || size == 0 {
        return 0;
      }
      var aligned := AlignSize(size);
      if aligned > 4096 {
        failedAllocations := Wrap(failedAllocations + 1);
        return 0;
      }
      if currentPage == 0 || Wrap(currentOffset + aligned) > 4096 {
        var ok := NewPage();
        if !ok {
          return 0;
        }
        WrapSmall(currentPage);
      }
      result := Wrap(currentPage + currentOffset);
      currentOffset := Wrap(currentOffset + aligned);
      usedBytes := Wrap(usedBytes + aligned);
      allocationCount := Wrap(allocationCount + 1);
    }

    // A page for a caller of the page manager, or 0.
    method LendPage() returns (address: u32)
      requires Valid()
      modifies pages, pages.bitmap
      ensures Valid()
      ensures var (pool, page) := TakePage(old(View().pool));
              View() == old(View()).(pool := pool) && address == Wrap(page * 4096)
    {
      hide FreeIn, CyclicallyFirst, Scan;
      address := pages.AllocPage();
    }

    // A page given back to the page manager.
    method ReturnPage(address: u32)
      requires Valid()
      modifies pages, pages.bitmap
      ensures Valid()
      ensures View() == old(View()).(pool := GivePage(old(View().pool), address))
    {
      hide FreeIn;
      pages.FreePage(address);
    }
  }
}
