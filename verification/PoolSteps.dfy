/** What each store, load, malloc and free of the pool calls does to a pool that
    lies in memory: one lemma for each kind of step. */
module PoolSteps {
  import opened RawMemory
  import opened PoolModel
  import opened PoolProofs
  import opened PoolRuns
  import opened PoolLayout

  /** The address returned and the pool left by a carving. */
  ghost predicate Carving(c: Carved, before: World, after: World, m: int) {
    match c
    case Full => m == 0 && after == before
    case Carved(v, r) => m == r.start && m > 0 && after == v
  }

  lemma CarveKeepsGood(w: World, size: int, align: bool, choice: int)
    requires w.Good() && 0 <= size && (size <= w.pool.max || size == LARGE_NODE)
    ensures var c := CarveSmall(w, size, align, choice);
      c.Carved? ==> c.world.Good() && c.world.pool.Settled(c.region)
                    && c.region.len == size && c.region.aligned == align && c.region.start > 0
  {
    var c := CarveSmall(w, size, align, choice);
    CarveKeeps(w, size, align, choice);
    CarveConserves(w, size, align, choice);
    hide CarveSmall, World.Conserved, Pool.Ok;
  }

  lemma NewIsLaid(h: Heap, p: Pool, b: Block)
    requires forall i | 0 <= i < |p.blocks| :: Apart(p.blocks[i].base, p.psize, b.base, p.psize)
    requires b.failed == 0
    ensures var g := Put(Put(Put(Put(h, b.base + END, b.base + p.psize), b.base + NEXT, 0), b.base + FAILED, 0), b.base + LAST, b.last);
      Image(g, p).NewLaid(b)
  {
  }

  /** Half way along the ageing walk: the chain is a, blocks from i on are still to be aged. */
  ghost predicate Ageing(h0: Heap, h: Heap, p0: Pool, a: Pool, b: Block, i: int) {
    && 0 <= p0.cur < |p0.blocks| == |a.blocks| && 0 <= i < |a.blocks|
    && a in Held(h) && Image(h, a).NewLaid(b) && b.base in h.live && h.live[b.base] == p0.psize
    && Age(a, i) == Age(p0, p0.cur) && a.psize == p0.psize && h.live == h0.live
    && (forall k | 0 <= k < |a.blocks| :: a.blocks[k].base == p0.blocks[k].base) && Kept(h0, h, Linked(p0, b))
  }

  /** What the search does with block i. */
  lemma SearchStep(h: Heap, p: Pool, i: int, size: int, align: bool)
    requires p in Held(h) && 0 <= i < |p.blocks|
    ensures var m := if align then AlignPtr(p.blocks[i].last) else p.blocks[i].last;
      && m == Start(p.blocks[i], align) && p.blocks[i].last <= m
      && (Sub64(p.blocks[i].base + p.psize, m) >= size <==> HasRoom(p, i, size, align))
  {
    StartInBlock(p, i, align);
    RoomTestIsRoom(p, i, size, align);
  }

  lemma GoodBounds(w: World, size: int)
    requires w.Good()
    ensures 0 <= w.pool.cur < |w.pool.blocks| && LiveApart(w.live)
    ensures size <= w.pool.max || size == LARGE_NODE ==> size <= w.pool.psize - POOL_HEADER
  {
  }

  lemma PoolSize(h: Heap, p: Pool)
    requires p in Held(h)
    ensures |p.blocks| > 0 && MIN_POOL_SIZE <= p.psize
    ensures Sub64(p.blocks[0].base + p.psize, p.blocks[0].base) == p.psize
  {
    Sub64Value(p.blocks[0].base + p.psize, p.blocks[0].base);
  }

  lemma AddBlockGood(w: World, size: int, align: bool, choice: int)
    requires w.Good() && 0 <= size <= w.pool.psize - POOL_HEADER
    ensures AddBlock(w, size, align, choice).Carved? <==> Malloc(w.live, w.pool.psize, choice) != 0
    ensures var c := AddBlock(w, size, align, choice);
      c.Carved? ==> (
        && c.world.Good() && Malloc(w.live, w.pool.psize, choice) == choice && CanPlace(w.live, choice, w.pool.psize)
        && c.world.pool.BlocksOk() && c.world.pool.RegionsOk()
        && c.region == Region(choice + BLOCK_HEADER, size, |w.pool.blocks|, align)
        && c.world.pool == Linked(w.pool, Block(choice, choice + BLOCK_HEADER + size, 0))
        && c.world.live == w.live[choice := w.pool.psize])
  {
    var c := AddBlock(w, size, align, choice);
    if c.Carved? {
      AddBlockKeeps(w, size, align, choice);
      AddBlockShape(w, size, align, choice);
      AppendConserves(w, c.world, choice);
    }
  }

  lemma SoundWithMore(h: Heap, w: World, m: int)
    requires w.pool in Held(Heap(h.words, w.live)) && m !in w.live && h.live == w.live[m := w.pool.psize]
    ensures w.pool in Held(h)
  {
    var g := Heap(h.words, w.live);
    assert forall a :: h.Word(a) == g.Word(a);
    assert forall i | 0 <= i < |w.pool.blocks| :: BlockLaid(g, w.pool, i) && BlockLaid(h, w.pool, i);
    assert forall j | 0 <= j < |w.pool.large| :: NodeLaid(g, w.pool, j) && NodeLaid(h, w.pool, j);
  }

  function Linked(p: Pool, b: Block): Pool
    requires 0 <= p.cur < |p.blocks|
  {
    var q := Age(p, p.cur);
    q.(blocks := q.blocks + [b])
  }

  lemma LinkedShape(p: Pool, b: Block)
    requires 0 <= p.cur < |p.blocks|
    ensures var q := Linked(p, b);
      && |q.blocks| == |p.blocks| + 1 && q.blocks[|p.blocks|] == b && q.large == p.large && q.psize == p.psize
      && forall i | 0 <= i < |p.blocks| :: q.blocks[i].base == p.blocks[i].base
  {
    AgeEffect(p, p.cur);
  }

  lemma LinkedIs(p: Pool, a: Pool, b: Block, i: int)
    requires 0 <= p.cur < |p.blocks| && 0 <= i < |a.blocks| && i + 1 == |a.blocks|
    requires Age(a, i) == Age(p, p.cur)
    ensures a.(blocks := a.blocks + [b]) == Linked(p, b)
  {
  }

  /** A store into the header of block i does not touch the new block. */
  lemma NewLaidAway(h: Heap, p: Pool, q: Pool, b: Block, i: int, off: int, v: int)
    requires Image(h, p).NewLaid(b) && 0 <= i < |p.blocks| && 0 <= off <= p.psize - 8 && POOL_HEADER <= p.psize
    requires q.psize == p.psize && |q.blocks| == |p.blocks|
    requires forall k | 0 <= k < |p.blocks| :: q.blocks[k].base == p.blocks[k].base
    ensures Image(Put(h, p.blocks[i].base + off, v), q).NewLaid(b)
  {
    assert Apart(p.blocks[i].base, p.psize, b.base, p.psize);
  }

  lemma SoundLink(h: Heap, p: Pool, b: Block)
    requires p in Held(h) && Image(h, p).NewLaid(b) && b.base in h.live && h.live[b.base] == p.psize
    requires p.(blocks := p.blocks + [b]).BlocksOk() && p.(blocks := p.blocks + [b]).RegionsOk()
    ensures p.(blocks := p.blocks + [b]) in Held(Put(h, p.blocks[|p.blocks| - 1].base + NEXT, b.base))
  {
    LinkBlock(h, p, b);
  }

  lemma AlignedBody(m: int)
    requires 0 < m && m % 16 == 0 && m + BLOCK_HEADER < ADDRESS_SPACE
    ensures AlignPtr(m + BLOCK_HEADER) == m + BLOCK_HEADER
  {
    hide AlignPtr;
    EndAligned(m, BLOCK_HEADER);
    AlignPtrRoundsUp(m + BLOCK_HEADER, m + BLOCK_HEADER);
  }

  lemma NewIsUnrelated(h: Heap, p: Pool, m: int, off: int)
    requires p in Held(h) && 0 <= off <= p.psize - 8
    requires forall i | 0 <= i < |p.blocks| :: Apart(p.blocks[i].base, p.psize, m, p.psize)
    ensures Unrelated(p, m + off)
  {
    forall j | 0 <= j < |p.large| ensures m + off < p.large[j].node.start || p.large[j].node.start + LARGE_NODE <= m + off {
      var r := p.large[j].node;
      assert InBlock(p, r) && Apart(p.blocks[r.blk].base, p.psize, m, p.psize);
    }
  }

  lemma SoundUnrelated(h: Heap, p: Pool, a: int, v: int)
    requires p in Held(h) && Unrelated(p, a)
    ensures p in Held(Put(h, a, v))
  {
    StoreUnrelated(h, p, a, v);
  }

  /** One word of the new block's header is written: the old chain p does not see it. */
  lemma NewHeaderWord(h: Heap, g: Heap, p: Pool, q: Pool, off: int, v: int)
    requires p in Held(g) && Kept(h, g, q) && |q.blocks| > 1 && BLOCK_HEADER <= p.psize
    requires var m := q.blocks[|q.blocks| - 1].base; forall i | 0 <= i < |p.blocks| :: Apart(p.blocks[i].base, p.psize, m, p.psize)
    requires 0 <= off <= BLOCK_HEADER - 8
    ensures var g' := Put(g, q.blocks[|q.blocks| - 1].base + off, v); p in Held(g') && Kept(h, g', q)
  {
    hide Held, Kept, Unrelated;
    NewIsUnrelated(g, p, q.blocks[|q.blocks| - 1].base, off);
    SoundUnrelated(g, p, q.blocks[|q.blocks| - 1].base + off, v);
    KeptHeader(h, g, q, |q.blocks| - 1, off, v);
  }

  /** One turn of the ageing loop. */
  function Aged(p: Pool, i: int): Pool
    requires 0 <= i < |p.blocks|
  {
    var f := p.blocks[i].failed;
    var q := SetFailed(p, i, f + 1);
    if f > 4 then q.(cur := i + 1) else q
  }

  lemma AgedShape(p: Pool, i: int)
    requires 0 <= i < |p.blocks|
    ensures var q := Aged(p, i);
      && q.psize == p.psize && |q.blocks| == |p.blocks|
      && (forall k | 0 <= k < |p.blocks| :: q.blocks[k].base == p.blocks[k].base)
      && (i + 1 < |p.blocks| ==> Age(p, i) == Age(q, i + 1))
  {
  }

  lemma AgeingStep(h0: Heap, h: Heap, p0: Pool, a: Pool, b: Block, i: int)
    requires Ageing(h0, h, p0, a, b, i) && i + 1 < |a.blocks|
    ensures var f := a.blocks[i].failed; var h1 := Put(h, a.blocks[i].base + FAILED, f + 1);
      && h1.Owned(a.blocks[0].base + CURRENT, 8)
      && Ageing(h0, if f > 4 then Put(h1, a.blocks[0].base + CURRENT, a.blocks[i + 1].base) else h1, p0, Aged(a, i), b, i + 1)
  {
    hide Held, Kept, Heap.Owned, Heap.Word, Age, Image.NewLaid, Linked;
    var f := a.blocks[i].failed;
    var h1 := Put(h, a.blocks[i].base + FAILED, f + 1);
    var q := SetFailed(a, i, f + 1);
    var z := Linked(p0, b);
    LinkedShape(p0, b);
    AgedShape(a, i);
    PoolSize(h, a);
    SoundFailed(h, a, i, f + 1);
    NewLaidAway(h, a, q, b, i, FAILED, f + 1);
    AgeingKept(h0, h, p0, a, b, i, FAILED, f + 1);
    RootReads(h1, q);
    if f > 4 {
      var v := a.blocks[i + 1].base;
      SoundCurrent(h1, q, i + 1);
      NewLaidAway(h1, q, q.(cur := i + 1), b, 0, CURRENT, v);
      KeptHeader(h0, h1, z, 0, CURRENT, v);
    }
  }

  lemma AgeingKept(h0: Heap, h: Heap, p0: Pool, a: Pool, b: Block, i: int, off: int, v: int)
    requires Ageing(h0, h, p0, a, b, i) && 0 <= off < BLOCK_HEADER
    ensures Kept(h0, Put(h, a.blocks[i].base + off, v), Linked(p0, b))
  {
    hide Held, Kept, Image.NewLaid, Linked;
    LinkedShape(p0, b);
    KeptHeader(h0, h, Linked(p0, b), i, off, v);
  }

  lemma AgeingLast(h0: Heap, h: Heap, p0: Pool, a: Pool, b: Block, i: int)
    requires Ageing(h0, h, p0, a, b, i) && i + 1 == |a.blocks|
    requires Linked(p0, b).BlocksOk() && Linked(p0, b).RegionsOk()
    ensures var g := Put(h, a.blocks[i].base + NEXT, b.base);
      Linked(p0, b) in Held(g) && Kept(h0, g, Linked(p0, b))
  {
    hide Held, Kept, Image.NewLaid, Pool.BlocksOk, Pool.RegionsOk;
    LinkedIs(p0, a, b, i);
    SoundLink(h, a, b);
    AgeingKept(h0, h, p0, a, b, i, NEXT, b.base);
  }

  /** Where malloc may put a block, the chain is not. */
  lemma PlaceOfNew(h: Heap, p: Pool, m: int)
    requires p in Held(h) && LiveApart(h.live) && CanPlace(h.live, m, p.psize)
    ensures m !in h.live && AlignPtr(m + BLOCK_HEADER) == m + BLOCK_HEADER && BLOCK_HEADER < p.psize
    ensures forall i | 0 <= i < |p.blocks| :: Apart(p.blocks[i].base, p.psize, m, p.psize)
  {
    PlaceKeepsApart(h.live, m, p.psize);
    AlignedBody(m);
    forall i | 0 <= i < |p.blocks| ensures Apart(p.blocks[i].base, p.psize, m, p.psize) {
      assert p.blocks[i].base in h.live;
    }
  }

  // ----- creating -----

  lemma FreshOwned(h: Heap, p: int, size: int)
    requires p in h.live && h.live[p] == size >= POOL_HEADER
    ensures h.Owned(p + LAST, 8) && h.Owned(p + END, 8) && h.Owned(p + NEXT, 8) && h.Owned(p + FAILED, 8)
    ensures h.Owned(p + MAX, 8) && h.Owned(p + CURRENT, 8) && h.Owned(p + LARGE, 8)
  {
  }

  lemma RoomOfNew(size: int)
    requires POOL_HEADER <= size < ADDRESS_SPACE
    ensures Sub64(size, POOL_HEADER) == size - POOL_HEADER
  {
    Sub64Value(size, POOL_HEADER);
  }

  /** The words of a new header, one after the other. */
  function NewHeader(h: Heap, a: int, p: Pool): Heap {
    Put(Put(Put(Put(Put(Put(Put(h, a + LAST, a + POOL_HEADER), a + END, a + p.psize), a + NEXT, 0),
      a + FAILED, 0), a + MAX, p.max), a + CURRENT, a), a + LARGE, 0)
  }

  lemma CreatedLaid(h: Heap, p: Pool, a: int)
    requires p.blocks == [Block(a, a + POOL_HEADER, 0)] && p.large == [] && p.cur == 0
    ensures Image(NewHeader(h, a, p), p).Laid()
  {
  }

  lemma CreatedKept(h: Heap, p: Pool, a: int)
    requires p.blocks == [Block(a, a + POOL_HEADER, 0)]
    ensures Kept(h, NewHeader(h, a, p), p)
  {
    assert forall x | Unrelated(p, x) :: x < p.blocks[0].base || p.blocks[0].base + Header(0) <= x;
  }

  lemma CreatedHeld(h: Heap, w: World)
    requires w.Good() && h.live == w.live && Image(h, w.pool).Laid()
    ensures w.pool in Held(h)
  {
    hide World.Good, Image.Laid;
    GoodRegions(w);
    GoodLiveBase(w);
  }

  lemma GoodLiveBase(w: World)
    requires w.Good()
    ensures forall i | 0 <= i < |w.pool.blocks| ::
      w.pool.blocks[i].base in w.live && w.live[w.pool.blocks[i].base] == w.pool.psize
  {
  }

  // ----- registering what was carved -----

  lemma Reheld(h: Heap, p: Pool, q: Pool)
    requires p in Held(h) && q == p.(clients := q.clients) && q.RegionsOk()
    ensures q in Held(h)
  {
    assert forall i | 0 <= i < |p.blocks| :: BlockLaid(h, p, i) ==> BlockLaid(h, q, i);
    assert forall j | 0 <= j < |p.large| :: NodeLaid(h, p, j) ==> NodeLaid(h, q, j);
  }

  lemma SmallRegisters(h: Heap, w0: World, w1: World, m: int, size: int, align: bool, choice: int)
    requires w0.Good() && 0 <= size <= w0.pool.max && w1.pool in Held(h)
    requires Carving(CarveSmall(w0, size, align, choice), w0, w1, m)
    ensures var o := Small(w0, size, align, choice);
      && o.addr == m && o.world.Good() && o.world.pool in Held(h) && o.world.live == w1.live
      && o.world.pool == w1.pool.(clients := o.world.pool.clients)
  {
    hide World.Good, Held;
    GoodBounds(w0, size);
    SmallKeeps(w0, size, align, choice);
    var o := Small(w0, size, align, choice);
    GoodRegions(o.world);
    Reheld(h, w1.pool, o.world.pool);
  }

  lemma GoodRegions(w: World)
    requires w.Good()
    ensures w.pool.BlocksOk() && w.pool.RegionsOk()
  {
  }

  /** More of the heap is live: the pool is still held. */
  function HeapWith(h: Heap, ghost w: World, p: int, size: int): (g: Heap)
    requires w.pool in Held(h) && LiveApart(w.live) && CanPlace(w.live, p, size) && h.live == w.live
    ensures g == Heap(h.words, h.live[p := size]) && w.pool in Held(g)
  {
    HeldWithMore(h, w.pool, p, size);
    Heap(h.words, h.live[p := size])
  }

  lemma HeldWithMore(h: Heap, p: Pool, a: int, size: int)
    requires p in Held(h) && LiveApart(h.live) && CanPlace(h.live, a, size)
    ensures p in Held(Heap(h.words, h.live[a := size]))
  {
    PlaceKeepsApart(h.live, a, size);
    SameWords(h, Heap(h.words, h.live[a := size]), p);
  }

  /** Only the words and the chain's own regions matter. */
  lemma SameWords(h: Heap, g: Heap, p: Pool)
    requires p in Held(h) && g.words == h.words
    requires forall i | 0 <= i < |p.blocks| :: p.blocks[i].base in g.live && g.live[p.blocks[i].base] == p.psize
    ensures p in Held(g)
  {
    assert forall a :: h.Word(a) == g.Word(a);
    assert forall i | 0 <= i < |p.blocks| :: BlockLaid(h, p, i) ==> BlockLaid(g, p, i);
    assert forall j | 0 <= j < |p.large| :: NodeLaid(h, p, j) ==> NodeLaid(g, p, j);
  }

  lemma KeptWords(h: Heap, h1: Heap, g: Heap, p: Pool)
    requires h.words == h1.words && Kept(h1, g, p)
    ensures Kept(h, g, p)
  {
    assert forall a :: h.Word(a) == h1.Word(a);
  }

  lemma SlotTaken(h: Heap, w: World, size: int, a: int, j: int)
    requires w.Good() && CanPlace(w.live, a, size) && h.live == w.live[a := size] && w.pool in Held(h)
    requires 0 <= j < |w.pool.large| && w.pool.large[j].alloc == 0
    ensures var v := SetAlloc(w.(live := h.live), j, a); var n := w.pool.large[j].node.start + NODE_ALLOC;
      && v.Good() && v.pool in Held(Put(h, n, a)) && h.Owned(n, 8)
      && v.pool.blocks == w.pool.blocks && |v.pool.large| == |w.pool.large| && v.live == h.live
      && forall k | 0 <= k < |w.pool.large| :: v.pool.large[k].node == w.pool.large[k].node
  {
    var v := SetAlloc(w.(live := h.live), j, a);
    SlotGood(h, w, size, a, j);
    hide World.Good, Held;
    NodeReads(h, w.pool, j);
    SlotHeld(h, w.pool, v.pool, a, j);
  }

  lemma SlotGood(h: Heap, w: World, size: int, a: int, j: int)
    requires w.Good() && CanPlace(w.live, a, size) && h.live == w.live[a := size]
    requires 0 <= j < |w.pool.large| && w.pool.large[j].alloc == 0
    ensures var v := SetAlloc(w.(live := h.live), j, a); v.Good() && v.pool.RegionsOk()
  {
    SetAllocConserves(w, j, a, size);
    SetAllocKeepsPool(w, j, a);
  }

  lemma SlotHeld(h: Heap, p: Pool, q: Pool, a: int, j: int)
    requires p in Held(h) && 0 <= j < |p.large| && q.RegionsOk()
    requires q == p.(large := p.large[j := p.large[j].(alloc := a)])
    ensures q in Held(Put(h, p.large[j].node.start + NODE_ALLOC, a))
  {
    StoreAlloc(h, p, j, a);
  }

  lemma PendingGood(w: World, a: int, size: int)
    requires w.Good() && CanPlace(w.live, a, size)
    ensures Pending(w, a, size).Good()
  {
    PendingConserved(w, a, size);
  }

  lemma NotAttached(h: Heap, w0: World, w1: World, size: int, p: int, choice: int)
    requires w0.Good() && CanPlace(w0.live, p, size) && w1.pool in Held(h) && h.live == w1.live
    requires Carving(CarveSmall(Pending(w0, p, size), LARGE_NODE, true, choice), Pending(w0, p, size), w1, 0)
    ensures w1.pool == w0.pool && Attach(w0, size, p, choice) == Outcome(w0, 0)
    ensures p in h.live && h.Free(p).live == w0.live && w0.pool in Held(h.Free(p))
  {
    hide World.Good, Held, CarveSmall;
    GoodLive(w0, p, size);
    AttachShape(w0, size, p, choice);
    assert h.Free(p).live == w0.live;
    SameWords(h, h.Free(p), w0.pool);
  }

  lemma GoodLive(w: World, p: int, size: int)
    requires w.Good() && CanPlace(w.live, p, size)
    ensures p !in w.live && 0 <= w.pool.cur < |w.pool.blocks|
    ensures forall i | 0 <= i < |w.pool.blocks| ::
      w.pool.blocks[i].base in w.live && w.live[w.pool.blocks[i].base] == w.pool.psize && w.pool.blocks[i].base != p
  {
    PlaceKeepsApart(w.live, p, size);
  }

  /** The two words of a fresh node belong to no header and no other node. */
  lemma NodeIsUnrelated(h: Heap, p: Pool, r: Region)
    requires p in Held(h) && InBlock(p, r) && p.Clear(r) && r.len == LARGE_NODE
    ensures Unrelated(p, r.start + NODE_NEXT) && Unrelated(p, r.start + NODE_ALLOC)
    ensures r.start + LARGE_NODE <= p.blocks[0].base || p.blocks[0].base + POOL_HEADER <= r.start
  {
    forall i | 0 <= i < |p.blocks|
      ensures r.start + LARGE_NODE <= p.blocks[i].base || p.blocks[i].base + Header(i) <= r.start
    {
      NodeOffHeaders(p, r, i);
    }
  }

  lemma WriteNode(h: Heap, p: Pool, q: Pool, r: Region, a: int)
    requires p in Held(h) && InBlock(p, r) && p.Clear(r) && r.len == LARGE_NODE
    requires q == p.(large := [Large(r, a)] + p.large) && q.RegionsOk()
    ensures var root := p.blocks[0].base + LARGE;
      var g1 := Put(h, r.start + NODE_ALLOC, a); var g2 := Put(g1, r.start + NODE_NEXT, g1.Word(root)); var g3 := Put(g2, root, r.start);
      && q in Held(g3) && Kept(h, g3, q)
      && h.Owned(r.start + NODE_ALLOC, 8) && g1.Owned(root, 8) && g1.Owned(r.start + NODE_NEXT, 8) && g2.Owned(root, 8)
  {
    hide Held, Kept, Pool.RegionsOk, Pool.Clear, InBlock, Unrelated;
    RootReads(h, p);
    var root := p.blocks[0].base + LARGE;
    var g1 := Put(h, r.start + NODE_ALLOC, a);
    var g2 := Put(g1, r.start + NODE_NEXT, g1.Word(root));
    NodeIsUnrelated(h, p, r);
    RegionOwned(h, p, r);
    SoundUnrelated(h, p, r.start + NODE_ALLOC, a);
    SoundUnrelated(g1, p, r.start + NODE_NEXT, g1.Word(root));
    LinkHeld(g2, p, q, r, a);
    KeptSame(h, h, q);
    KeptNode(h, h, q, 0, NODE_ALLOC, a);
    KeptNode(h, g1, q, 0, NODE_NEXT, g1.Word(root));
    KeptHeader(h, g2, q, 0, LARGE, r.start);
  }

  lemma LinkHeld(h: Heap, p: Pool, q: Pool, r: Region, a: int)
    requires p in Held(h) && InBlock(p, r) && r.len == LARGE_NODE
    requires h.Word(r.start + NODE_NEXT) == NodeAddr(p, 0) && h.Word(r.start + NODE_ALLOC) == a
    requires q == p.(large := [Large(r, a)] + p.large) && q.RegionsOk()
    ensures q in Held(Put(h, p.blocks[0].base + LARGE, r.start))
  {
    LinkNode(h, p, r, a);
  }

  lemma Attached(h: Heap, w0: World, w1: World, node: int, size: int, p: int, choice: int)
    requires w0.Good() && CanPlace(w0.live, p, size) && w1.pool in Held(h) && h.live == w1.live && node != 0
    requires Carving(CarveSmall(Pending(w0, p, size), LARGE_NODE, true, choice), Pending(w0, p, size), w1, node)
    ensures var u := Attach(w0, size, p, choice).world;
      && Attach(w0, size, p, choice).addr == p && u.Good() && u.live == h.live && u.pool.blocks == w1.pool.blocks
      && (exists x :: u.pool.large == [x] + w1.pool.large)
      && var root := w1.pool.blocks[0].base + LARGE;
      var g1 := Put(h, node + NODE_ALLOC, p); var g2 := Put(g1, node + NODE_NEXT, g1.Word(root)); var g3 := Put(g2, root, node);
      && u.pool in Held(g3) && Kept(h, g3, u.pool)
      && h.Owned(node + NODE_ALLOC, 8) && g1.Owned(root, 8) && g1.Owned(node + NODE_NEXT, 8) && g2.Owned(root, 8)
  {
    hide World.Good, Held, Kept, CarveSmall, Pool.Settled, Pool.RegionsOk, Heap.Owned, Heap.Word, Put;
    GoodLive(w0, p, size);
    var c := CarveSmall(Pending(w0, p, size), LARGE_NODE, true, choice);
    var u := Attach(w0, size, p, choice).world;
    AttachShape(w0, size, p, choice);
    AttachKeeps(w0, size, p, choice);
    GoodRegions(u);
    PendingGood(w0, p, size);
    CarveKeepsGood(Pending(w0, p, size), LARGE_NODE, true, choice);
    SettledParts(w1.pool, c.region);
    assert u.pool.large == [Large(c.region, p)] + w1.pool.large;
    WriteNode(h, w1.pool, u.pool, c.region, p);
  }

  lemma SettledParts(p: Pool, r: Region)
    requires p.Settled(r)
    ensures InBlock(p, r) && p.Clear(r)
  {
  }

  // ----- releasing -----

  lemma ReleaseHeld(h: Heap, w: World, j: int)
    requires w.Good() && w.pool in Held(h) && h.live == w.live && 0 <= j < |w.pool.large|
    ensures var p := w.pool.large[j].alloc; var v := SetAlloc(w, j, 0).(live := w.live - {p});
      var n := w.pool.large[j].node.start + NODE_ALLOC;
      && (p == 0 || p in h.live) && h.Free(p).Owned(n, 8)
      && v.Good() && v.pool in Held(Put(h.Free(p), n, 0)) && v.live == h.Free(p).live
      && v.pool.blocks == w.pool.blocks
  {
    hide Held, World.Good;
    var p := w.pool.large[j].alloc;
    HeldRegion(h, w, j);
    var v := SetAlloc(w, j, 0).(live := w.live - {p});
    ReleaseGood(w, j);
    SameWords(h, h.Free(p), w.pool);
    NodeReads(h.Free(p), w.pool, j);
    GoodRegions(v);
    SlotHeld(h.Free(p), w.pool, v.pool, 0, j);
  }

  /** What a node holds is no part of the pool's own memory. */
  lemma KeptSlot(h: Heap, g: Heap, w: World, j: int, alloc: int)
    requires 0 <= j < |w.pool.large| && Kept(h, g, w.pool)
    ensures Kept(h, g, SetAlloc(w, j, alloc).pool)
  {
    KeptGrows(h, g, w.pool, SetAlloc(w, j, alloc).pool);
  }

  lemma ReleaseGood(w: World, j: int)
    requires w.Good() && 0 <= j < |w.pool.large|
    ensures SetAlloc(w, j, 0).(live := w.live - {w.pool.large[j].alloc}).Good()
  {
    PfreeConserves(w, j);
    SetAllocKeepsPool(w, j, 0);
  }

  /** What a node holds is live, and no block. */
  lemma HeldRegion(h: Heap, w: World, j: int)
    requires w.Good() && 0 <= j < |w.pool.large|
    ensures var p := w.pool.large[j].alloc;
      && (p == 0 || p in w.live)
      && forall i | 0 <= i < |w.pool.blocks| ::
           w.pool.blocks[i].base in w.live - {p} && w.live[w.pool.blocks[i].base] == w.pool.psize
  {
    var p := w.pool.large[j].alloc;
    assert p != 0 ==> Holds(w.pool, p);
  }

  lemma FreeOne(h: Heap, w: World, j: int)
    requires w.Good() && w.pool in Held(h) && 0 <= j < |w.pool.large|
    requires h.live == w.live - Allocs(w.pool.large[..j])
    ensures var large := w.pool.large; var p := large[j].alloc;
      if p == 0 then Allocs(large[..j + 1]) == Allocs(large[..j])
      else p in h.live && h.Free(p).live == w.live - Allocs(large[..j + 1]) && w.pool in Held(h.Free(p))
  {
    hide Held;
    var large := w.pool.large;
    var p := large[j].alloc;
    assert large[..j + 1] == large[..j] + [large[j]];
    AllocsOfMore(large[..j], large[j]);
    if p != 0 {
      HeldRegion(h, w, j);
      assert p !in Allocs(large[..j]);
      assert h.Free(p).live == w.live - Allocs(large[..j + 1]);
      forall i | 0 <= i < |w.pool.blocks| ensures w.pool.blocks[i].base !in Allocs(large[..j + 1]) {
      }
      SameWords(h, h.Free(p), w.pool);
    }
  }

  lemma AllocsOfMore(large: seq<Large>, l: Large)
    ensures Allocs(large + [l]) == Allocs(large) + if l.alloc == 0 then {} else {l.alloc}
  {
    assert l in large + [l];
    assert forall x | x in large :: x in large + [l];
  }

  function Bases(blocks: seq<Block>): set<int> {
    set b | b in blocks :: b.base
  }

  /** The heap after the first k blocks of the chain were freed. */
  function Without(h: Heap, p: Pool, k: int): Heap
    requires 0 <= k <= |p.blocks|
  {
    Heap(h.words, h.live - Bases(p.blocks[..k]))
  }

  lemma FreeBlock(h: Heap, p: Pool, k: int)
    requires p in Held(h) && 0 <= k < |p.blocks|
    ensures var b := p.blocks; var g := Without(h, p, k + 1);
      && b[k].base in Without(h, p, k).live && Without(h, p, k).Free(b[k].base) == g
      && g.words == h.words && (NextAddr(p, k) == 0 <==> k + 1 == |b|)
      && (k + 1 < |b| ==>
            && NextAddr(p, k) == b[k + 1].base && g.Owned(b[k + 1].base + NEXT, 8)
            && g.Word(b[k + 1].base + NEXT) == NextAddr(p, k + 1))
  {
    hide Held;
    var b := p.blocks;
    BaseFresh(h, p, k);
    HeaderReads(h, p, k);
    assert b[..k + 1] == b[..k] + [b[k]];
    assert Bases(b[..k + 1]) == Bases(b[..k]) + {b[k].base};
    if k + 1 < |b| {
      BaseFresh(h, p, k + 1);
      HeaderReads(h, p, k + 1);
      assert b[k + 1].base in Without(h, p, k + 1).live;
    }
  }

  lemma BaseFresh(h: Heap, p: Pool, k: int)
    requires p in Held(h) && 0 <= k < |p.blocks|
    ensures p.blocks[k].base !in Bases(p.blocks[..k])
    ensures p.blocks[k].base in h.live && h.live[p.blocks[k].base] == p.psize && MIN_POOL_SIZE <= p.psize
  {
    forall i | 0 <= i < k ensures p.blocks[i].base != p.blocks[k].base {
      assert Apart(p.blocks[i].base, p.psize, p.blocks[k].base, p.psize);
    }
  }

  lemma AllFreed(h: Heap, w: World)
    requires w.Good() && h.live == w.live - Allocs(w.pool.large)
    ensures Without(h, w.pool, 0) == h
    ensures Without(h, w.pool, |w.pool.blocks|).live == w.other
  {
    hide World.Good, Allocs;
    LeftOver(w);
    NoneFreed(h, w.pool);
  }

  lemma NoneFreed(h: Heap, p: Pool)
    ensures Without(h, p, 0) == h && Without(h, p, |p.blocks|).live == h.live - Bases(p.blocks)
  {
    assert p.blocks[..0] == [] && p.blocks[..|p.blocks|] == p.blocks;
    assert h.live - Bases([]) == h.live;
  }

  /** Without the large regions and the blocks, what is live is what was before. */
  lemma LeftOver(w: World)
    requires w.Good()
    ensures w.live - Allocs(w.pool.large) - Bases(w.pool.blocks) == w.other
  {
    hide Pool.Ok, Holds, Allocs, Bases;
    var rest := w.live - Allocs(w.pool.large) - Bases(w.pool.blocks);
    forall a ensures a in rest <==> a in w.other {
      HoldsIsHeld(w.pool, a);
    }
    assert forall a | a in rest :: rest[a] == w.live[a] == w.other[a];
  }

  lemma HoldsIsHeld(p: Pool, a: int)
    ensures Holds(p, a) <==> a in Allocs(p.large) || a in Bases(p.blocks)
  {
    if i :| 0 <= i < |p.blocks| && p.blocks[i].base == a {
      assert p.blocks[i] in p.blocks;
    }
    if j :| 0 <= j < |p.large| && p.large[j].alloc == a && a != 0 {
      assert p.large[j] in p.large;
    }
  }

  /** A byte a client may store to: of a region carved for it, or of a live region that is no block. */
  ghost predicate ClientByte(w: World, a: int) {
    || (exists c :: 0 <= c < |w.pool.clients| && w.pool.clients[c].start <= a < w.pool.clients[c].start + w.pool.clients[c].len)
    || (exists r :: r in w.live && r !in Bases(w.pool.blocks) && r <= a < r + w.live[r])
  }

  lemma ClientIsUnrelated(h: Heap, w: World, a: int)
    requires w.Good() && ClientByte(w, a)
    ensures Unrelated(w.pool, WordOf(a))
  {
    hide World.Good, ClientByte, WordOf;
    var p := w.pool;
    forall i | 0 <= i < |p.blocks| ensures WordOf(a) < p.blocks[i].base || p.blocks[i].base + Header(i) <= WordOf(a) {
      ClientOffHeader(w, a, i);
      WordStays(a, p.blocks[i].base, Header(i));
    }
    forall j | 0 <= j < |p.large| ensures WordOf(a) < p.large[j].node.start || p.large[j].node.start + LARGE_NODE <= WordOf(a) {
      ClientOffNode(w, a, j);
      WordStays(a, p.large[j].node.start, LARGE_NODE);
    }
  }

  lemma WordStays(a: int, start: int, len: int)
    requires start % 8 == 0 && len % 8 == 0 && (a < start || start + len <= a)
    ensures WordOf(a) < start || start + len <= WordOf(a)
  {
    if start + len <= a { WordStaysPast(a, start + len); }
  }

  lemma ClientOffHeader(w: World, a: int, i: int)
    requires w.Good() && ClientByte(w, a) && 0 <= i < |w.pool.blocks|
    ensures a < w.pool.blocks[i].base || w.pool.blocks[i].base + Header(i) <= a
    ensures w.pool.blocks[i].base % 8 == 0
  {
    hide World.Good;
    var p := w.pool;
    GoodRegions(w);
    BaseAligned(p, i);
    if c :| 0 <= c < |p.clients| && p.clients[c].start <= a < p.clients[c].start + p.clients[c].len {
      ClientRegionOffHeader(p, c, i);
    } else {
      var r :| r in w.live && r !in Bases(p.blocks) && r <= a < r + w.live[r];
      LiveOffBlock(w, r, i);
    }
  }

  lemma BaseAligned(p: Pool, i: int)
    requires p.BlocksOk() && 0 <= i < |p.blocks|
    ensures p.blocks[i].base % 8 == 0
  {
    hide Pool.BlocksOk;
    BaseAligned16(p, i);
    Sixteen(p.blocks[i].base);
  }

  lemma BaseAligned16(p: Pool, i: int)
    requires p.BlocksOk() && 0 <= i < |p.blocks|
    ensures p.blocks[i].base % 16 == 0
  {
  }

  lemma Sixteen(a: int)
    requires a % 16 == 0
    ensures a % 8 == 0
  {
  }

  lemma ClientRegionOffHeader(p: Pool, c: int, i: int)
    requires p.BlocksOk() && p.RegionsOk() && 0 <= c < |p.clients| && 0 <= i < |p.blocks|
    ensures p.clients[c].start + p.clients[c].len <= p.blocks[i].base || p.blocks[i].base + Header(i) <= p.clients[c].start
  {
    NodeOffHeaders(p, p.clients[c], i);
  }

  /** A live region that is no block lies clear of every block. */
  lemma LiveOffBlock(w: World, r: int, i: int)
    requires w.Good() && r in w.live && r !in Bases(w.pool.blocks) && 0 <= i < |w.pool.blocks|
    ensures r + w.live[r] <= w.pool.blocks[i].base || w.pool.blocks[i].base + w.pool.psize <= r
    ensures Header(i) <= w.pool.psize
  {
    var p := w.pool;
    assert p.blocks[i] in p.blocks && p.blocks[i].base in w.live;
    assert Apart(r, Extent(w.live[r]), p.blocks[i].base, Extent(w.live[p.blocks[i].base]));
  }

  lemma ClientOffNode(w: World, a: int, j: int)
    requires w.Good() && ClientByte(w, a) && 0 <= j < |w.pool.large|
    ensures a < w.pool.large[j].node.start || w.pool.large[j].node.start + LARGE_NODE <= a
    ensures w.pool.large[j].node.start % 8 == 0
  {
    hide World.Good;
    var p := w.pool;
    GoodRegions(w);
    NodeParts(p, j);
    if c :| 0 <= c < |p.clients| && p.clients[c].start <= a < p.clients[c].start + p.clients[c].len {
      assert Disjoint(p.clients[c], p.large[j].node);
    } else {
      var r :| r in w.live && r !in Bases(p.blocks) && r <= a < r + w.live[r];
      LiveOffBlock(w, r, p.large[j].node.blk);
    }
  }

  lemma NodeParts(p: Pool, j: int)
    requires p.BlocksOk() && p.RegionsOk() && 0 <= j < |p.large|
    ensures var r := p.large[j].node;
      && 0 <= r.blk < |p.blocks| && p.blocks[r.blk].base <= r.start && r.start + LARGE_NODE <= p.blocks[r.blk].base + p.psize
      && r.start % 8 == 0 && r.len == LARGE_NODE
  {
    assert InBlock(p, p.large[j].node);
  }

  // ----- rewinding the chain for a reset -----

  /** The pool p with its first i blocks rewound and nothing carved, as it will
      read once pool->large is cleared too. */
  ghost function Half(p: Pool, v: Pool, i: int): Pool
    requires 0 <= i <= |p.blocks| == |v.blocks|
  {
    p.(large := [], clients := [], blocks := v.blocks[..i] + p.blocks[i..])
  }

  ghost predicate Rewinding(h0: Heap, h: Heap, p: Pool, v: Pool, i: int) {
    && 0 <= i <= |p.blocks| == |v.blocks| && 0 <= p.cur < |p.blocks|
    && v == p.(blocks := Rewound(p.blocks), cur := 0, large := [], clients := [])
    && Half(p, v, i) in Held(Put(h, v.blocks[0].base + LARGE, 0))
    && Kept(h0, h, v)
  }

  lemma StartRewinding(h: Heap, w: World)
    requires w.Good() && w.pool in Held(h)
    ensures |w.pool.blocks| > 0 && w.pool.blocks[0].base > 0 && Rewinding(h, h, w.pool, Reset(w).pool, 0)
  {
    hide Held, Kept, World.Good;
    var p, v := w.pool, Reset(w).pool;
    GoodBounds(w, 0);
    HeaderReads(h, p, 0);
    KeptSame(h, h, v);
    assert Half(p, v, 0) == p.(large := [], clients := []);
    DropLarge(h, p);
  }

  lemma DropLarge(h: Heap, p: Pool)
    requires p in Held(h)
    ensures p.(large := [], clients := []) in Held(Put(h, p.blocks[0].base + LARGE, 0))
  {
    hide Pool.BlocksOk, Pool.RegionsOk, Image.Laid;
    DropLaid(h, p);
    DropKeeps(p);
  }

  lemma DropKeeps(p: Pool)
    requires p.BlocksOk() && p.RegionsOk()
    ensures var q := p.(large := [], clients := []); q.BlocksOk() && q.RegionsOk()
  {
  }

  lemma DropLaid(h: Heap, p: Pool)
    requires p.BlocksOk() && p.RegionsOk() && Image(h, p).Laid()
    ensures Image(Put(h, p.blocks[0].base + LARGE, 0), p.(large := [], clients := [])).Laid()
  {
    hide Pool.BlocksOk, Pool.RegionsOk;
    var g := Put(h, p.blocks[0].base + LARGE, 0);
    var q := p.(large := [], clients := []);
    HeaderStoreFrame(h, p, 0, LARGE, 0);
    assert BlockLaid(h, p, 0) && RootLaid(h, p);
    forall i | 0 <= i < |q.blocks| ensures BlockLaid(g, q, i) {
      assert i != 0 ==> BlockLaid(g, p, i);
    }
  }

  lemma PutCommutes(h: Heap, a: int, x: int, b: int, y: int)
    requires a != b
    ensures Put(Put(h, a, x), b, y) == Put(Put(h, b, y), a, x)
  {
    assert h.words[a := x][b := y] == h.words[b := y][a := x];
  }

  lemma RewindBlock(h: Heap, q: Pool, i: int)
    requires q in Held(h) && q.large == [] && q.clients == [] && 0 <= i < |q.blocks|
    ensures var b := q.blocks[i].base;
      q.(blocks := q.blocks[i := Block(b, b + POOL_HEADER, 0)])
        in Held(Put(Put(h, b + LAST, b + POOL_HEADER), b + FAILED, 0))
  {
    hide Image.Laid, RootLaid, BlockLaid, Heap.Word;
    var b := q.blocks[i].base;
    var q1 := Bump(q, i, b + POOL_HEADER);
    StoreLast(h, q, i, b + POOL_HEADER);
    BumpDown(q, i);
    StoreFailed(Put(h, b + LAST, b + POOL_HEADER), q1, i, 0);
    BumpDown(SetFailed(q, i, 0), i);
    assert SetFailed(q1, i, 0) == q.(blocks := q.blocks[i := Block(b, b + POOL_HEADER, 0)]);
    assert forall k | 0 <= k < |q.blocks| :: SetFailed(q1, i, 0).blocks[k].base == q.blocks[k].base;
  }

  lemma BumpDown(q: Pool, i: int)
    requires 0 <= i < |q.blocks| && q.large == [] && q.clients == []
    ensures q.BlocksOk() ==> Bump(q, i, q.blocks[i].base + POOL_HEADER).BlocksOk() && Bump(q, i, q.blocks[i].base + POOL_HEADER).RegionsOk()
  {
    var q1 := Bump(q, i, q.blocks[i].base + POOL_HEADER);
    assert forall k | 0 <= k < |q.blocks| :: q1.blocks[k].base == q.blocks[k].base;
  }

  lemma RewindStep(h0: Heap, h: Heap, p: Pool, v: Pool, i: int)
    requires Rewinding(h0, h, p, v, i) && i < |v.blocks|
    ensures var b := v.blocks[i].base;
      var g1 := Put(h, b + LAST, b + POOL_HEADER); var g2 := Put(g1, b + FAILED, 0);
      && h.Owned(b + LAST, 8) && g1.Owned(b + FAILED, 8) && g2.Owned(b + NEXT, 8)
      && g2.Word(b + NEXT) == NextAddr(v, i) && (NextAddr(v, i) == 0 <==> i + 1 == |v.blocks|)
      && Rewinding(h0, g2, p, v, i + 1)
  {
    hide Held, Kept, Heap.Word, Heap.Owned;
    var root := v.blocks[0].base + LARGE;
    var q := Half(p, v, i);
    var b := v.blocks[i].base;
    var g := Put(h, root, 0);
    var g1, g2 := Put(h, b + LAST, b + POOL_HEADER), Put(Put(h, b + LAST, b + POOL_HEADER), b + FAILED, 0);
    HeaderReads(g, q, i);
    RewindBlock(g, q, i);
    assert q.blocks[i := Block(b, b + POOL_HEADER, 0)] == v.blocks[..i + 1] + p.blocks[i + 1..];
    assert q.(blocks := q.blocks[i := Block(b, b + POOL_HEADER, 0)]) == Half(p, v, i + 1);
    RootOff(g, q, i);
    PutCommutes(h, root, 0, b + LAST, b + POOL_HEADER);
    PutCommutes(g1, root, 0, b + FAILED, 0);
    KeptHeader(h0, h, v, i, LAST, b + POOL_HEADER);
    KeptHeader(h0, g1, v, i, FAILED, 0);
    NextUnchanged(h, root, b);
    OwnedSame(g, h, b + LAST);
    OwnedSame(g, g1, b + FAILED);
    OwnedSame(g, g2, b + NEXT);
  }

  /** The words of a header's first four fields are not that of pool->large. */
  lemma RootOff(h: Heap, q: Pool, i: int)
    requires q in Held(h) && 0 <= i < |q.blocks|
    ensures var root := q.blocks[0].base + LARGE; var b := q.blocks[i].base;
      root != b + LAST && root != b + FAILED && root != b + NEXT
  {
    if i != 0 { HeadersApart(q, 0, i); }
  }

  lemma NextUnchanged(h: Heap, root: int, b: int)
    requires root != b + NEXT
    ensures var g2 := Put(Put(h, b + LAST, b + POOL_HEADER), b + FAILED, 0);
      g2.Word(b + NEXT) == Put(h, root, 0).Word(b + NEXT)
  {
  }

  /** Ownership is a matter of what is live only. */
  lemma OwnedSame(h: Heap, g: Heap, a: int)
    requires g.live == h.live && h.Owned(a, 8)
    ensures g.Owned(a, 8)
  {
  }

  lemma FinishRewinding(h0: Heap, h: Heap, p: Pool, v: Pool)
    requires Rewinding(h0, h, p, v, |v.blocks|)
    ensures var b := v.blocks[0].base; var g1 := Put(h, b + CURRENT, b); var g2 := Put(g1, b + LARGE, 0);
      && h.Owned(b + CURRENT, 8) && g1.Owned(b + LARGE, 8)
      && v in Held(g2) && Kept(h0, g2, v)
  {
    hide Held, Kept, Heap.Word, Heap.Owned;
    var b := v.blocks[0].base;
    var q := Half(p, v, |v.blocks|);
    var g := Put(h, b + LARGE, 0);
    assert q.blocks == v.blocks;
    RootReads(g, q);
    SoundCurrent(g, q, 0);
    assert q.(cur := 0) == v;
    PutCommutes(h, b + LARGE, 0, b + CURRENT, b);
    KeptHeader(h0, h, v, 0, CURRENT, b);
    KeptHeader(h0, Put(h, b + CURRENT, b), v, 0, LARGE, 0);
    OwnedSame(g, h, b + CURRENT);
    OwnedSame(g, Put(h, b + CURRENT, b), b + LARGE);
  }
}
