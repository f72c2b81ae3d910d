/** Whole runs of pool calls, and what the pool promises over every one of them. */
module PoolRuns {
  import opened RawMemory
  import opened PoolModel
  import opened PoolProofs

  datatype Event =
    | Allocate(size: nat, align: bool, choice1: int, choice2: int)
    | Memaligned(size: nat, choice1: int, choice2: int)
    | Release(addr: int)
    | Rewind

  function Apply(w: World, e: Event): World
    requires 0 <= w.pool.cur < |w.pool.blocks|
  {
    match e
    case Allocate(size, align, c1, c2) => Palloc(w, size, align, c1, c2).world
    case Memaligned(size, c1, c2) => Memalign(w, size, c1, c2).world
    case Release(a) => Pfree(w, a).world
    case Rewind => Reset(w)
  }

  lemma ApplyKeeps(w: World, e: Event)
    requires w.Good()
    ensures Apply(w, e).Good()
  {
    hide Pool.Ok, World.Conserved, Attach, Slot, CarveSmall;
    CurInGood(w);
    match e
    case Allocate(size, align, c1, c2) =>
      if size <= w.pool.max { SmallKeeps(w, size, align, c1); } else { LargeKeeps(w, size, c1, c2); }
    case Memaligned(size, c1, c2) =>
      var a := Malloc(w.live, size, c1);
      if a != 0 { AttachKeeps(w, size, a, c2); }
    case Release(a) => PfreeKeeps(w, a);
    case Rewind => ResetKeeps(w);
  }

  lemma CurInGood(w: World)
    requires w.Good()
    ensures 0 <= w.pool.cur < |w.pool.blocks|
  {
  }

  lemma PfreeKeeps(w: World, a: int)
    requires w.Good()
    ensures Pfree(w, a).world.Good()
  {
    var j := Holding(w.pool.large, a, 0);
    if j < |w.pool.large| {
      PfreeConserves(w, j);
      SetAllocKeepsPool(w, j, 0);
    }
  }

  function Run(w: World, es: seq<Event>): World
    requires w.Good()
    decreases |es|
  {
    if es == [] then w
    else
      ApplyKeeps(w, es[0]);
      Run(Apply(w, es[0]), es[1..])
  }

  lemma CreatedIsGood(other: map<int, int>, size: int, pagesize: int, base: int)
    requires LiveApart(other) && CanPlace(other, base, size)
    requires MIN_POOL_SIZE <= size && size % 8 == 0
    ensures Created(other, size, pagesize, base).Good() && FreshAges(Created(other, size, pagesize, base).pool)
  {
    var w := Created(other, size, pagesize, base);
    PlaceKeepsApart(other, base, size);
    assert w.pool.blocks[0].base == base;
    assert forall a :: Holds(w.pool, a) <==> a == base;
  }

  /** No run of calls, whatever malloc answers, breaks any of the pool's promises. */
  lemma {:induction false} RunKeeps(w: World, es: seq<Event>)
    requires w.Good()
    ensures Run(w, es).Good()
    decreases |es|
  {
    if es != [] {
      hide World.Good;
      ApplyKeeps(w, es[0]);
      assert Run(w, es) == Run(Apply(w, es[0]), es[1..]);
      RunKeeps(Apply(w, es[0]), es[1..]);
    }
  }

  /** What that means for the program: its small allocations and the nodes of the
      large list lie each inside one block, past the header and below `last`,
      aligned where that was asked for; no two of them meet; and what is live is
      what was live before, the blocks, and what the large list holds. */
  lemma RunIsSafe(w: World, es: seq<Event>)
    requires w.Good()
    ensures var v := Run(w, es); var p := v.pool;
      && (forall c | 0 <= c < |p.clients| :: InBlock(p, p.clients[c]))
      && (forall j | 0 <= j < |p.large| :: InBlock(p, p.large[j].node))
      && (forall c, d | 0 <= c < d < |p.clients| :: Disjoint(p.clients[c], p.clients[d]))
      && (forall c, j | 0 <= c < |p.clients| && 0 <= j < |p.large| :: Disjoint(p.clients[c], p.large[j].node))
      && (forall j, k | 0 <= j < k < |p.large| :: Disjoint(p.large[j].node, p.large[k].node))
      && forall a :: a in v.live <==> a in v.other || Holds(p, a)
  {
    hide Run, InBlock, Disjoint, Holds;
    RunKeeps(w, es);
  }

  /** Between resets the ages follow the exact formula, and no client region is moved or dropped. */
  lemma ApplyKeepsFresh(w: World, e: Event)
    requires w.Good() && FreshAges(w.pool) && !e.Rewind?
    ensures FreshAges(Apply(w, e).pool) && w.pool.clients <= Apply(w, e).pool.clients
  {
    hide FreshAges, Pool.AgesOk, Pool.BlocksOk, Pool.RegionsOk, World.Conserved, CarveSmall, Attach, Slot, Holding;
    CurInChain(w.pool);
    match e
    case Allocate(size, align, c1, c2) =>
      if size <= w.pool.max {
        SmallIsFresh(w, size, align, c1);
      } else {
        LargeKeepsFresh(w, size, c1, c2);
      }
    case Memaligned(size, c1, c2) =>
      AttachKeepsFresh(w, size, Malloc(w.live, size, c1), c2);
    case Release(a) =>
      SameAges(w.pool, Apply(w, e).pool);
  }

  lemma SameAges(p: Pool, q: Pool)
    requires FreshAges(p) && q.blocks == p.blocks && q.cur == p.cur
    ensures FreshAges(q)
  {
  }

  lemma SmallIsFresh(w: World, size: int, align: bool, choice: int)
    requires w.pool.AgesOk() && FreshAges(w.pool)
    ensures var v := Small(w, size, align, choice).world; FreshAges(v.pool) && w.pool.clients <= v.pool.clients
  {
    hide FreshAges, Pool.AgesOk, CarveSmall;
    CurInChain(w.pool);
    CarveKeepsFresh(w, size, align, choice);
    var c := CarveSmall(w, size, align, choice);
    if c.Carved? { SameAges(c.world.pool, Small(w, size, align, choice).world.pool); }
  }

  lemma LargeKeepsFresh(w: World, size: int, choice1: int, choice2: int)
    requires w.pool.AgesOk() && FreshAges(w.pool)
    ensures var v := LargeAlloc(w, size, choice1, choice2).world; FreshAges(v.pool) && v.pool.clients == w.pool.clients
  {
    hide FreshAges, Pool.AgesOk, Attach, Slot;
    CurInChain(w.pool);
    AttachKeepsFresh(w, size, Malloc(w.live, size, choice1), choice2);
    SameAges(w.pool, w.pool.(large := LargeAlloc(w, size, choice1, choice2).world.pool.large));
  }

  lemma AttachKeepsFresh(w: World, size: int, a: int, choice: int)
    requires w.pool.AgesOk() && FreshAges(w.pool)
    ensures var v := Attach(w, size, a, choice).world; FreshAges(v.pool) && v.pool.clients == w.pool.clients
  {
    CarveKeepsFresh(w.(live := w.live[a := size]), LARGE_NODE, true, choice);
  }

  lemma BumpKeepsFreshAges(p: Pool, i: int, last: int)
    requires FreshAges(p) && 0 <= i < |p.blocks|
    ensures FreshAges(Bump(p, i, last))
  {
    assert forall k | 0 <= k < |p.blocks| :: Bump(p, i, last).blocks[k].failed == p.blocks[k].failed;
  }

  lemma CarveKeepsFresh(w: World, size: int, align: bool, choice: int)
    requires w.pool.AgesOk() && FreshAges(w.pool)
    ensures var c := CarveSmall(w, size, align, choice);
      c.Carved? ==> FreshAges(c.world.pool) && c.world.pool.clients == w.pool.clients
  {
    hide Pool.AgesOk, FreshAges;
    CurInChain(w.pool);
    var i := Fit(w.pool, w.pool.cur, size, align);
    var c := CarveSmall(w, size, align, choice);
    if i < |w.pool.blocks| {
      BumpKeepsFreshAges(w.pool, i, c.region.start + size);
    } else if c.Carved? {
      AgeEffect(w.pool, w.pool.cur);
      AddBlockKeepsFreshAges(w.pool, Block(choice, choice + BLOCK_HEADER + size, 0));
    }
  }

  /** However large a pool grows, until it is reset a search visits at most seven blocks. */
  lemma {:induction false} SearchIsBounded(w: World, es: seq<Event>)
    requires w.Good() && FreshAges(w.pool)
    requires forall e | e in es :: !e.Rewind?
    ensures var v := Run(w, es);
      && FreshAges(v.pool) && |v.pool.blocks| - v.pool.cur <= 7
      && w.pool.clients <= v.pool.clients
    decreases |es|
  {
    if es != [] {
      ApplyKeeps(w, es[0]);
      ApplyKeepsFresh(w, es[0]);
      SearchIsBounded(Apply(w, es[0]), es[1..]);
    }
  }

  /** A chain just reset gives every block as much room as the first block has, behind
      the larger header: so every request the pool may make of it has room. */
  lemma ResetMakesRoom(w: World, i: int, size: int, align: bool)
    requires w.Good() && 0 <= i < |w.pool.blocks|
    ensures HasRoom(Reset(w).pool, i, size, align) <==> size <= w.pool.psize - POOL_HEADER
    ensures size <= w.pool.max || size == LARGE_NODE ==> HasRoom(Reset(w).pool, i, size, align)
    ensures Reset(w).pool.cur == 0 && forall k | 0 <= k < |w.pool.blocks| :: Reset(w).pool.blocks[k].failed == 0
  {
    var base := w.pool.blocks[i].base;
    assert base % 16 == 0 && w.pool.max <= w.pool.psize - POOL_HEADER && MIN_POOL_SIZE <= w.pool.psize;
    hide World.Good;
    AlignedAlready(base, POOL_HEADER);
  }

  // ----- small and large requests -----

  /** The largest small request: what is left behind the header, but less than a page. */
  lemma MaxOfNew(other: map<int, int>, size: int, pagesize: int, base: int)
    requires POOL_HEADER <= size < ADDRESS_SPACE && 1 <= pagesize < ADDRESS_SPACE
    ensures var m := Created(other, size, pagesize, base).pool.max;
      m <= size - POOL_HEADER && m < pagesize && (m == size - POOL_HEADER || m == pagesize - 1)
  {
    Sub64Value(pagesize, 1);
  }

  lemma CarveKeepsMax(w: World, size: int, align: bool, choice: int)
    requires 0 <= w.pool.cur < |w.pool.blocks|
    ensures var c := CarveSmall(w, size, align, choice);
      c.Carved? ==> c.world.pool.max == w.pool.max && c.world.pool.psize == w.pool.psize && c.world.pool.large == w.pool.large
                    && c.world.pool.clients == w.pool.clients && c.region.len == size && c.region.aligned == align
  {
    AgeEffect(w.pool, w.pool.cur);
  }

  lemma ApplyKeepsMax(w: World, e: Event)
    requires w.Good()
    ensures Apply(w, e).pool.max == w.pool.max && Apply(w, e).pool.psize == w.pool.psize
  {
    hide CarveSmall, Slot, Holding;
    match e
    case Allocate(size, align, c1, c2) =>
      CarveKeepsMax(w, size, align, c1);
      CarveKeepsMax(w.(live := w.live[Malloc(w.live, size, c1) := size]), LARGE_NODE, true, c2);
    case Memaligned(size, c1, c2) =>
      CarveKeepsMax(w.(live := w.live[Malloc(w.live, size, c1) := size]), LARGE_NODE, true, c2);
    case Release(a) =>
    case Rewind =>
  }

  /** It stays what it was over every run. */
  lemma {:induction false} MaxStays(w: World, es: seq<Event>)
    requires w.Good()
    ensures Run(w, es).pool.max == w.pool.max && Run(w, es).pool.psize == w.pool.psize
    decreases |es|
  {
    if es != [] {
      ApplyKeeps(w, es[0]);
      ApplyKeepsMax(w, es[0]);
      MaxStays(Apply(w, es[0]), es[1..]);
    }
  }

  /** A request up to max that succeeds is one more client region of its length, aligned
      where that was asked for; the large list stays. */
  lemma SmallRequest(w: World, size: int, align: bool, choice1: int, choice2: int)
    requires w.Good() && 0 <= size <= w.pool.max
    ensures var r := Palloc(w, size, align, choice1, choice2);
      if r.addr == 0 then r.world == w
      else
        && r.world.pool.large == w.pool.large && |r.world.pool.clients| == |w.pool.clients| + 1
        && var c := r.world.pool.clients[|w.pool.clients|];
           c.start == r.addr && c.len == size && c.aligned == align && r.world.pool.clients[..|w.pool.clients|] == w.pool.clients
  {
    hide CarveSmall;
    CarveKeepsMax(w, size, align, choice1);
    CarveKeeps(w, size, align, choice1);
    var c := CarveSmall(w, size, align, choice1);
    if c.Carved? { RegionStarts(c.world.pool, c.region); }
  }

  lemma RegionStarts(p: Pool, r: Region)
    requires p.Settled(r)
    ensures r.start > 0
  {
  }

  /** A larger one that succeeds is a live region of its size which was not live
      before, held by an empty slot of the first five nodes or else by a new node;
      the client regions stay. */
  lemma LargeRequest(w: World, size: int, align: bool, choice1: int, choice2: int)
    requires w.Good() && w.pool.max < size
    ensures var r := Palloc(w, size, align, choice1, choice2); var large := w.pool.large; var j := Slot(large, 0);
      if r.addr == 0 then r.world == w
      else
        && r.addr !in w.live && r.addr in r.world.live && r.world.live[r.addr] == size
        && r.world.pool.clients == w.pool.clients
        && if j < |large| then r.world.pool.large == large[j := large[j].(alloc := r.addr)] && r.world.pool.blocks == w.pool.blocks
           else |r.world.pool.large| == |large| + 1 && r.world.pool.large[0].alloc == r.addr && r.world.pool.large[1..] == large
  {
    hide Slot;
    var a := Malloc(w.live, size, choice1);
    if a != 0 { NewNode(w, size, a, choice2); }
  }

  lemma NewNode(w: World, size: int, a: int, choice: int)
    requires w.Good() && CanPlace(w.live, a, size)
    ensures a !in w.live
    ensures var r := Attach(w, size, a, choice);
      if r.addr == 0 then r.world == w
      else
        && r.addr == a && a in r.world.live && r.world.live[a] == size && r.world.pool.clients == w.pool.clients
        && |r.world.pool.large| == |w.pool.large| + 1
        && r.world.pool.large[0].alloc == a && r.world.pool.large[1..] == w.pool.large
  {
    hide CarveSmall;
    PlaceKeepsApart(w.live, a, size);
    var v := w.(live := w.live[a := size]);
    CarveKeepsMax(v, LARGE_NODE, true, choice);
    CarveKeepsLive(v, LARGE_NODE, true, choice, a);
  }

  lemma CarveKeepsLive(w: World, size: int, align: bool, choice: int, a: int)
    requires 0 <= w.pool.cur < |w.pool.blocks| && a in w.live && LiveApart(w.live)
    ensures var c := CarveSmall(w, size, align, choice); c.Carved? ==> a in c.world.live && c.world.live[a] == w.live[a]
  {
    var m := Malloc(w.live, w.pool.psize, choice);
    if m != 0 { PlaceKeepsApart(w.live, m, w.pool.psize); }
  }

  /** ngx_pmemalign never looks for a slot: it always makes a new node. */
  lemma MemalignMakesNode(w: World, size: int, choice1: int, choice2: int)
    requires w.Good()
    ensures var r := Memalign(w, size, choice1, choice2);
      if r.addr == 0 then r.world == w
      else
        && r.addr !in w.live && r.addr in r.world.live && r.world.live[r.addr] == size
        && r.world.pool.clients == w.pool.clients && |r.world.pool.large| == |w.pool.large| + 1
        && r.world.pool.large[0].alloc == r.addr && r.world.pool.large[1..] == w.pool.large
  {
    hide Attach;
    var a := Malloc(w.live, size, choice1);
    if a != 0 { NewNode(w, size, a, choice2); }
  }

  /** On a new pool, whatever is a page or larger goes to malloc: of the block only
      a node is taken. */
  lemma PagesGoToMalloc(other: map<int, int>, psize: int, pagesize: int, base: int, size: int, align: bool, choice1: int, choice2: int)
    requires LiveApart(other) && CanPlace(other, base, psize) && MIN_POOL_SIZE <= psize && psize % 8 == 0
    requires 1 <= pagesize <= size && pagesize < ADDRESS_SPACE
    ensures var w := Created(other, psize, pagesize, base); var r := Palloc(w, size, align, choice1, choice2);
      r.addr != 0 ==>
        && r.world.live == w.live[r.addr := size] && r.addr !in w.live
        && r.world.pool.clients == [] && r.world.pool.large == [Large(Region(base + POOL_HEADER, LARGE_NODE, 0, true), r.addr)]
        && r.world.pool.blocks == [Block(base, base + POOL_HEADER + LARGE_NODE, 0)]
  {
    MaxOfNew(other, psize, pagesize, base);
    CreatedIsGood(other, psize, pagesize, base);
    var w := Created(other, psize, pagesize, base);
    var a := Malloc(w.live, size, choice1);
    hide World.Good, LiveApart, Malloc;
    AlignedAlready(base, POOL_HEADER);
    assert Fit(w.pool, 0, LARGE_NODE, true) == 0;
    if a != 0 { PlaceIsNew(w, a, size); }
  }

  lemma PlaceIsNew(w: World, a: int, size: int)
    requires w.Good() && CanPlace(w.live, a, size)
    ensures a !in w.live
  {
    PlaceKeepsApart(w.live, a, size);
  }

  /** ngx_pfree says 0 for an address some node holds, and NGX_DECLINED for any other,
      which changes nothing. */
  lemma PfreeSays(w: World, a: int)
    ensures var r := Pfree(w, a);
      if exists j | 0 <= j < |w.pool.large| :: w.pool.large[j].alloc == a then r.addr == 0 && a !in r.world.live
      else r.addr == -5 && r.world == w
  {
  }

  // ----- the room test of the search loop -----

  /** Line 170 as written: the difference is taken in `size_t`. */
  predicate RoomTest(end: int, last: int, size: int, align: bool) {
    Sub64(end, if align then AlignPtr(last) else last) >= size
  }

  /** In every good pool the test is the plain comparison. */
  lemma RoomTestIsRoom(p: Pool, i: int, size: int, align: bool)
    requires p.BlocksOk() && 0 <= i < |p.blocks|
    ensures RoomTest(p.blocks[i].base + p.psize, p.blocks[i].last, size, align) <==> HasRoom(p, i, size, align)
  {
    var b := p.blocks[i];
    var end := b.base + p.psize;
    EndAligned(b.base, p.psize);
    assert 0 <= b.last <= end < ADDRESS_SPACE;
    hide Pool.BlocksOk, RoomTest;
    EndIsNeverPassed(end, b.last, size, align);
  }

  lemma EndIsNeverPassed(end: int, last: int, size: int, align: bool)
    requires 0 <= last <= end && end % 8 == 0 && end < ADDRESS_SPACE
    ensures RoomTest(end, last, size, align) <==> (if align then (last + 7) / 8 * 8 else last) + size <= end
  {
    AlignPtrRoundsUp(last, end);
    hide AlignPtr;
    Sub64Value(end, if align then AlignPtr(last) else last);
    hide Sub64;
  }

  predicate SameVerdict(base: int, psize: int, last: int, size: int) {
    RoomTest(base + psize, last, size, true) <==> (last + 7) / 8 * 8 + size <= base + psize
  }

  lemma AlignPastEnd(end: int)
    requires 0 <= end && end + 8 < ADDRESS_SPACE && end % 8 != 0
    ensures end < AlignPtr(end) == (end + 7) / 8 * 8 < ADDRESS_SPACE
  {
  }

  /** For every size, the test passes just when the request ends inside the block. */
  ghost predicate RoomTestSound(base: int, psize: int, last: int) {
    forall size | 0 <= size < ADDRESS_SPACE :: SameVerdict(base, psize, last, size)
  }

  /** The difference can wrap, and the test then lets a request run past the
      block, exactly when the block size is no multiple of the alignment. */
  lemma RoomTestExactlyWhenAligned(base: int, psize: int)
    requires 0 < base && base % 16 == 0 && POOL_HEADER <= psize && base + psize + 8 < ADDRESS_SPACE
    ensures (forall last | base + POOL_HEADER <= last <= base + psize :: RoomTestSound(base, psize, last)) <==> psize % 8 == 0
  {
    var end := base + psize;
    if psize % 8 == 0 {
      forall last | base + POOL_HEADER <= last <= end ensures RoomTestSound(base, psize, last) {
        forall size { EndIsNeverPassed(end, last, size, true); }
      }
    } else {
      EndOff(base, psize);
      AlignPastEnd(end);
      TestPassesPastEnd(base, psize);
      assert !RoomTestSound(base, psize, end);
    }
  }

  lemma EndOff(base: int, psize: int)
    requires base % 16 == 0 && psize % 8 != 0
    ensures (base + psize) % 8 != 0
  {
    var q := base / 16;
    assert base + psize == 8 * (2 * q) + psize;
  }

  /** A block filled to its end passes for a request of nothing, though that would start behind it. */
  lemma TestPassesPastEnd(base: int, psize: int)
    requires 0 <= base + psize < AlignPtr(base + psize) == (base + psize + 7) / 8 * 8 < ADDRESS_SPACE
    ensures !SameVerdict(base, psize, base + psize, 0)
  {
    hide AlignPtr, Sub64;
    Sub64Value(base + psize, AlignPtr(base + psize));
  }

  lemma EndPassed(base: int, psize: int)
    requires 0 < base && base % 16 == 0 && POOL_HEADER < psize && psize % 8 != 0 && base + psize + 8 < ADDRESS_SPACE
    ensures (base + POOL_HEADER + (psize - POOL_HEADER) + 7) / 8 * 8 + 1 > base + psize
    ensures base + psize < AlignPtr(base + psize) == (base + psize + 7) / 8 * 8 < ADDRESS_SPACE
  {
    EndOff(base, psize);
    AlignPastEnd(base + psize);
  }

  /** For every such size the pool is soon there: filled by ngx_pnalloc(psize - 56), no
      block has room for ngx_palloc(1), and the test says that the first has. */
  lemma UnalignedPoolOverruns(base: int, psize: int, pagesize: int, choice: int)
    requires POOL_HEADER < psize < pagesize + POOL_HEADER && pagesize < ADDRESS_SPACE && psize % 8 != 0
    requires CanPlace(map[], base, psize) && base + psize + 8 < ADDRESS_SPACE
    ensures var w := Palloc(Created(map[], psize, pagesize, base), psize - POOL_HEADER, false, choice, choice);
      && w.addr == base + POOL_HEADER && |w.world.pool.blocks| == 1
      && !HasRoom(w.world.pool, 0, 1, true)
      && RoomTest(base + psize, w.world.pool.blocks[0].last, 1, true)
      && base + psize < AlignPtr(w.world.pool.blocks[0].last)
  {
    hide AlignPtr, Sub64;
    var p := Created(map[], psize, pagesize, base).pool;
    Sub64Value(pagesize, 1);
    assert Fit(p, 0, psize - POOL_HEADER, false) == 0;
    EndPassed(base, psize);
    Sub64Value(base + psize, AlignPtr(base + psize));
  }
}
