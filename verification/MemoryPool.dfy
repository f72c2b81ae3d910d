/** The pool calls as they work on memory, word by word, each proved against
    its effect on the pool value. Every load and store falls into allocated
    memory, every free is the first of its region, and nothing outside the
    pool's own headers and list nodes is written. */
module MemoryPool {
  import opened RawMemory
  import opened PoolModel
  import opened PoolProofs
  import opened PoolRuns
  import opened PoolLayout
  import opened PoolSteps

  class Process {
    var heap: Heap
    ghost var w: World

    /** `pool` is the address of a pool, whose value is w.pool. */
    ghost predicate Valid(pool: int)
      reads this
    {
      w.Good() && heap.live == w.live && w.pool in Held(heap) && pool == w.pool.blocks[0].base
    }

    constructor (heap: Heap)
      ensures this.heap == heap
    {
      this.heap := heap;
      this.w := Created(map[], MIN_POOL_SIZE, 1, 16);
    }

    /** Any size that has room for the header gives a header; the sizes the pool is
        made for, those of at least 96 that are a multiple of 8, give a good pool. */
    method CreatePool(size: int, pagesize: int, choice: int) returns (p: int)
      requires LiveApart(heap.live)
      requires POOL_HEADER <= size < ADDRESS_SPACE
      modifies this
      ensures p == Malloc(old(heap.live), size, choice)
      ensures p == 0 ==> heap == old(heap)
      ensures p != 0 ==> w == Created(old(heap.live), size, pagesize, p) && heap.live == w.live
      ensures p != 0 ==> Image(heap, w.pool).Laid() && Kept(old(heap), heap, w.pool)
      ensures p != 0 && MIN_POOL_SIZE <= size && size % 8 == 0 ==> Valid(p)
    {
      hide Held, Kept, World.Good, Image.Laid, CanPlace, Heap.Owned, Heap.Word;
      p := Malloc(heap.live, size, choice);
      if p != 0 {
        ghost var h0 := heap;
        w := Created(heap.live, size, pagesize, p);
        heap := Heap(heap.words, heap.live[p := size]);
        ghost var h1 := heap;
        FreshOwned(heap, p, size);
        RoomOfNew(size);
        StoreWord(p + LAST, p + POOL_HEADER);
        StoreWord(p + END, p + size);
        StoreWord(p + NEXT, 0);
        StoreWord(p + FAILED, 0);
        var room := Sub64(size, POOL_HEADER);
        StoreWord(p + MAX, Min(room, Sub64(pagesize, 1)));
        StoreWord(p + CURRENT, p);
        StoreWord(p + LARGE, 0);
        CreatedLaid(h1, w.pool, p);
        CreatedKept(h1, w.pool, p);
        KeptWords(h0, h1, heap, w.pool);
        if MIN_POOL_SIZE <= size && size % 8 == 0 {
          CreatedIsGood(h0.live, size, pagesize, p);
          CreatedHeld(heap, w);
        }
      }
    }

    method LoadWord(a: int) returns (v: int)
      requires heap.Owned(a, 8)
      ensures v == heap.Word(a)
    {
      v := heap.Load(a);
    }

    method StoreWord(a: int, v: int)
      requires heap.Owned(a, 8)
      modifies this`heap
      ensures heap == Put(old(heap), a, v)
    {
      heap := heap.Store(a, v);
    }

    /** The search loop of ngx_palloc_small: the first block with room (0: none),
        and where the allocation would start in it. */
    method FindRoom(pool: int, size: int, align: bool) returns (p: int, m: int, ghost i: int)
      requires w.pool in Held(heap) && pool == w.pool.blocks[0].base
      ensures 0 <= w.pool.cur < |w.pool.blocks| && i == Fit(w.pool, w.pool.cur, size, align)
      ensures p == 0 <==> i == |w.pool.blocks|
      ensures p != 0 ==> p == w.pool.blocks[i].base && m == Start(w.pool.blocks[i], align)
    {
      hide Held, Heap.Owned, Heap.Word;
      RootReads(heap, w.pool);
      i := w.pool.cur;
      ghost var n := |w.pool.blocks|;
      ghost var fit := Fit(w.pool, i, size, align);
      HeaderReads(heap, w.pool, i);
      p := LoadWord(pool + CURRENT);
      m := 0;
      while p != 0
        invariant 0 <= i <= n && (p == 0 <==> i == n) && (i < n ==> p == w.pool.blocks[i].base)
        invariant Fit(w.pool, i, size, align) == fit
        decreases n - i
      {
        HeaderReads(heap, w.pool, i);
        m := LoadWord(p + LAST);
        if align {
          m := AlignPtr(m);
        }
        SearchStep(heap, w.pool, i, size, align);
        var end := LoadWord(p + END);
        if Sub64(end, m) >= size {
          return;
        }
        p := LoadWord(p + NEXT);
        i := i + 1;
      }
    }

    method PallocSmall(pool: int, size: int, align: bool, choice: int) returns (m: int)
      requires Valid(pool) && 0 <= size && (size <= w.pool.max || size == LARGE_NODE)
      modifies this
      ensures Valid(pool)
      ensures Carving(CarveSmall(old(w), size, align, choice), old(w), w, m)
      ensures Kept(old(heap), heap, w.pool)
    {
      hide Held, Kept, World.Good, Pool.Settled;
      GoodBounds(w, size);
      CarveKeepsGood(w, size, align, choice);
      var p;
      ghost var i;
      p, m, i := FindRoom(pool, size, align);
      if p != 0 {
        hide AddBlock;
        SearchStep(heap, w.pool, i, size, align);
        BumpBlock(pool, p, i, m + size);
      } else {
        hide AddBlock;
        m := PallocBlock(pool, size, align, choice);
      }
    }

    /** p->d.last = last. */
    method BumpBlock(pool: int, p: int, ghost i: int, last: int)
      requires 0 <= i < |w.pool.blocks| && p == w.pool.blocks[i].base && heap.live == w.live && w.pool in Held(heap)
      requires pool == w.pool.blocks[0].base
      requires w.pool.blocks[i].last <= last <= w.pool.blocks[i].base + w.pool.psize
      modifies this
      ensures w == old(w).(pool := Bump(old(w.pool), i, last))
      ensures heap.live == w.live && w.pool in Held(heap) && pool == w.pool.blocks[0].base
      ensures Kept(old(heap), heap, w.pool)
    {
      hide Held, Kept, Heap.Owned, Heap.Word;
      HeaderReads(heap, w.pool, i);
      SoundLast(heap, w.pool, i, last);
      w := w.(pool := Bump(w.pool, i, last));
      KeptSame(heap, heap, w.pool);
      KeptHeader(heap, heap, w.pool, i, LAST, last);
      StoreWord(p + LAST, last);
    }

    /** ngx_palloc_block; `align` is not looked at, the new block is aligned anyway. */
    method PallocBlock(pool: int, size: int, ghost align: bool, choice: int) returns (m: int)
      requires Valid(pool) && 0 <= size <= w.pool.psize - POOL_HEADER
      modifies this
      ensures Valid(pool)
      ensures Carving(AddBlock(old(w), size, align, choice), old(w), w, m)
      ensures Kept(old(heap), heap, w.pool)
    {
      hide Held, Kept, World.Good, Heap.Owned, Heap.Word, CanPlace, AddBlock, Linked, Malloc, Sub64;
      GoodBounds(w, size);
      HeaderReads(heap, w.pool, 0);
      PoolSize(heap, w.pool);
      KeptSame(heap, heap, w.pool);
      AddBlockGood(w, size, align, choice);
      var end := LoadWord(pool + END);
      m := Malloc(heap.live, Sub64(end, pool), choice);
      if m != 0 {
        ghost var v := AddBlock(w, size, align, choice).world;
        LinkedShape(w.pool, Block(m, m + BLOCK_HEADER + size, 0));
        var new_ := m;
        m := WriteHeader(new_, end - pool, size, v.pool);
        ghost var h1 := heap;
        AgeAndLink(pool, new_, w.pool, Block(new_, m + size, 0));
        KeptTrans(old(heap), h1, heap, v.pool);
        w := v;
      }
    }

    /** The header of the block malloc just gave; q is the pool it will belong to.
        Allocation starts after the header, aligned. */
    method WriteHeader(new_: int, psize: int, size: int, ghost q: Pool) returns (m: int)
      requires w.pool in Held(heap) && heap.live == w.live && LiveApart(w.live) && CanPlace(w.live, new_, psize)
      requires psize == w.pool.psize && |q.blocks| > 1 && q.blocks[|q.blocks| - 1].base == new_
      modifies this`heap
      ensures m == new_ + BLOCK_HEADER && heap.live == old(heap.live)[new_ := psize]
      ensures w.pool in Held(heap) && Image(heap, w.pool).NewLaid(Block(new_, m + size, 0))
      ensures Kept(old(heap), heap, q)
    {
      hide Held, Kept, CanPlace, Heap.Word, AlignPtr, Image.NewLaid;
      ghost var h0, p := heap, w.pool;
      PlaceOfNew(heap, w.pool, new_);
      heap := Heap(heap.words, heap.live[new_ := psize]);
      SoundWithMore(heap, w, new_);
      ghost var h1 := heap;
      assert new_ in heap.live;
      KeptSame(h0, heap, q);
      m := AlignPtr(new_ + BLOCK_HEADER);
      NewHeaderWord(h0, heap, p, q, END, new_ + psize);
      StoreWord(new_ + END, new_ + psize);
      NewHeaderWord(h0, heap, p, q, NEXT, 0);
      StoreWord(new_ + NEXT, 0);
      NewHeaderWord(h0, heap, p, q, FAILED, 0);
      StoreWord(new_ + FAILED, 0);
      NewHeaderWord(h0, heap, p, q, LAST, m + size);
      StoreWord(new_ + LAST, m + size);
      NewIsLaid(h1, p, Block(new_, m + size, 0));
    }

    /** The walk that ages the chain p0 and appends block b to it. */
    method AgeAndLink(pool: int, new_: int, ghost p0: Pool, ghost b: Block)
      requires p0 in Held(heap) && pool == p0.blocks[0].base && new_ == b.base && Image(heap, p0).NewLaid(b)
      requires new_ in heap.live && heap.live[new_] == p0.psize
      requires Linked(p0, b).BlocksOk() && Linked(p0, b).RegionsOk()
      modifies this`heap
      ensures heap.live == old(heap.live) && Linked(p0, b) in Held(heap)
      ensures Kept(old(heap), heap, Linked(p0, b))
    {
      hide Held, Kept, Heap.Owned, Heap.Word, Age, Image.NewLaid, Pool.BlocksOk, Pool.RegionsOk, Linked;
      RootReads(heap, p0);
      ghost var a, i, q, h0 := p0, p0.cur, Linked(p0, b), heap;
      KeptSame(heap, heap, q);
      var p := LoadWord(pool + CURRENT);
      HeaderReads(heap, a, i);
      var next := LoadWord(p + NEXT);
      while next != 0
        invariant Ageing(h0, heap, p0, a, b, i) && a.blocks[0].base == pool
        invariant p == a.blocks[i].base && next == NextAddr(a, i) && (next == 0 <==> i + 1 == |a.blocks|)
        decreases |a.blocks| - i
      {
        HeaderReads(heap, a, i);
        var f := LoadWord(p + FAILED);
        AgeingStep(h0, heap, p0, a, b, i);
        StoreWord(p + FAILED, f + 1);
        if f > 4 {
          StoreWord(pool + CURRENT, next);
        }
        a := Aged(a, i);
        i := i + 1;
        HeaderReads(heap, a, i);
        p := next;
        next := LoadWord(p + NEXT);
      }
      HeaderReads(heap, a, i);
      AgeingLast(h0, heap, p0, a, b, i);
      StoreWord(p + NEXT, new_);
    }

    /** ngx_palloc (align) and ngx_pnalloc (!align). */
    method Allocate(pool: int, size: int, align: bool, choice1: int, choice2: int) returns (m: int)
      requires Valid(pool) && 0 <= size < ADDRESS_SPACE
      modifies this
      ensures Valid(pool) && Outcome(w, m) == Palloc(old(w), size, align, choice1, choice2)
      ensures Kept(old(heap), heap, w.pool)
    {
      hide Held, Kept, World.Good, Heap.Owned, Heap.Word, CarveSmall, LargeAlloc, Small, Carving;
      GoodBounds(w, size);
      RootReads(heap, w.pool);
      var max := LoadWord(pool + MAX);
      if size <= max {
        ghost var w0 := w;
        m := PallocSmall(pool, size, align, choice1);
        SmallRegisters(heap, w0, w, m, size, align, choice1);
        KeptGrows(old(heap), heap, w.pool, Small(w0, size, align, choice1).world.pool);
        w := Small(w0, size, align, choice1).world;
      } else {
        m := PallocLarge(pool, size, choice1, choice2);
      }
    }

    /** The first empty slot among the first five nodes of the large list (0: none). */
    method FindSlot(pool: int) returns (large: int, ghost j: int)
      requires w.pool in Held(heap) && pool == w.pool.blocks[0].base
      ensures j == Slot(w.pool.large, 0)
      ensures large == 0 <==> Slot(w.pool.large, 0) == |w.pool.large|
      ensures large != 0 ==> large == w.pool.large[Slot(w.pool.large, 0)].node.start
    {
      hide Held, Heap.Owned, Heap.Word;
      RootReads(heap, w.pool);
      var n := 0;
      j := 0;
      large := LoadWord(pool + LARGE);
      while large != 0
        invariant 0 <= j <= |w.pool.large| && n == j <= 4 && large == NodeAddr(w.pool, j)
        invariant Slot(w.pool.large, j) == Slot(w.pool.large, 0)
        decreases |w.pool.large| - j
      {
        NodeReads(heap, w.pool, j);
        var alloc := LoadWord(large + NODE_ALLOC);
        if alloc == 0 {
          return;
        }
        if n > 3 {
          large := 0;
          j := |w.pool.large|;
          return;
        }
        n := n + 1;
        large := LoadWord(large + NODE_NEXT);
        j := j + 1;
      }
      if j < |w.pool.large| {
        NodeReads(heap, w.pool, j);
      }
    }

    method PallocLarge(pool: int, size: int, choice1: int, choice2: int) returns (p: int)
      requires Valid(pool) && 0 <= size < ADDRESS_SPACE
      modifies this
      ensures Valid(pool) && Outcome(w, p) == LargeAlloc(old(w), size, choice1, choice2)
      ensures Kept(old(heap), heap, w.pool)
    {
      hide Held, Kept, World.Good, Heap.Owned, Heap.Word, Attach, CanPlace, SetAlloc;
      GoodBounds(w, size);
      KeptSame(heap, heap, w.pool);
      p := Malloc(heap.live, size, choice1);
      if p != 0 {
        heap := HeapWith(heap, w, p, size);
        KeptSame(old(heap), heap, w.pool);
        var large;
        ghost var j;
        large, j := FindSlot(pool);
        if large != 0 {
          ghost var v := SetAlloc(w.(live := heap.live), j, p);
          SlotTaken(heap, w, size, p, j);
          KeptNode(old(heap), heap, w.pool, j, NODE_ALLOC, p);
          StoreWord(large + NODE_ALLOC, p);
          KeptGrows(old(heap), heap, w.pool, v.pool);
          w := v;
        } else {
          ghost var h1 := heap;
          p := AttachLarge(pool, p, size, choice2);
          KeptWords(old(heap), h1, heap, w.pool);
        }
      }
    }

    method Memalign(pool: int, size: int, choice1: int, choice2: int) returns (p: int)
      requires Valid(pool) && 0 <= size < ADDRESS_SPACE
      modifies this
      ensures Valid(pool) && Outcome(w, p) == PoolModel.Memalign(old(w), size, choice1, choice2)
      ensures Kept(old(heap), heap, w.pool)
    {
      hide Held, Kept, World.Good, Attach, CanPlace;
      GoodBounds(w, size);
      KeptSame(heap, heap, w.pool);
      p := Malloc(heap.live, size, choice1);
      if p != 0 {
        heap := HeapWith(heap, w, p, size);
        ghost var h1 := heap;
        p := AttachLarge(pool, p, size, choice2);
        KeptWords(old(heap), h1, heap, w.pool);
      }
    }

    /** A new node for the region at p: it goes to the head of the large list, or p is freed again. */
    method AttachLarge(pool: int, p: int, size: int, choice: int) returns (r: int)
      requires w.Good() && CanPlace(w.live, p, size) && heap.live == w.live[p := size]
      requires w.pool in Held(heap) && pool == w.pool.blocks[0].base
      modifies this
      ensures Valid(pool) && Outcome(w, r) == Attach(old(w), size, p, choice)
      ensures Kept(old(heap), heap, w.pool)
    {
      hide Held, Kept, World.Good, Heap.Owned, Heap.Word, CanPlace, Pool.Settled, CarveSmall, Carving, Attach;
      ghost var w0 := w;
      GoodLive(w, p, size);
      PendingGood(w, p, size);
      w := Pending(w, p, size);
      var node := PallocSmall(pool, LARGE_NODE, true, choice);
      if node == 0 {
        NotAttached(heap, w0, w, size, p, choice);
        KeptSame(heap, heap.Free(p), w0.pool);
        KeptTrans(old(heap), heap, heap.Free(p), w0.pool);
        heap := heap.Free(p);
        w := w0;
        r := 0;
      } else {
        ghost var u := Attach(w0, size, p, choice).world;
        ghost var h1 := heap;
        Attached(heap, w0, w, node, size, p, choice);
        StoreWord(node + NODE_ALLOC, p);
        var first := LoadWord(pool + LARGE);
        StoreWord(node + NODE_NEXT, first);
        StoreWord(pool + LARGE, node);
        KeptGrows(old(heap), h1, w.pool, u.pool);
        KeptTrans(old(heap), h1, heap, u.pool);
        w := u;
        r := p;
      }
    }

    method FindHolder(pool: int, p: int) returns (l: int, ghost j: int)
      requires w.pool in Held(heap) && pool == w.pool.blocks[0].base
      ensures j == Holding(w.pool.large, p, 0)
      ensures l == 0 <==> Holding(w.pool.large, p, 0) == |w.pool.large|
      ensures l != 0 ==> l == w.pool.large[Holding(w.pool.large, p, 0)].node.start
    {
      hide Held, Heap.Owned, Heap.Word;
      RootReads(heap, w.pool);
      j := 0;
      l := LoadWord(pool + LARGE);
      while l != 0
        invariant 0 <= j <= |w.pool.large| && l == NodeAddr(w.pool, j)
        invariant Holding(w.pool.large, p, j) == Holding(w.pool.large, p, 0)
        decreases |w.pool.large| - j
      {
        NodeReads(heap, w.pool, j);
        var alloc := LoadWord(l + NODE_ALLOC);
        if p == alloc {
          return;
        }
        l := LoadWord(l + NODE_NEXT);
        j := j + 1;
      }
      if j < |w.pool.large| {
        NodeReads(heap, w.pool, j);
      }
    }

    /** ngx_pfree; free(NULL) of an empty slot does nothing. */
    method Pfree(pool: int, p: int) returns (r: int)
      requires Valid(pool)
      modifies this
      ensures Valid(pool) && Outcome(w, r) == PoolModel.Pfree(old(w), p)
      ensures Kept(old(heap), heap, w.pool)
    {
      hide Held, Kept, World.Good, Heap.Owned, Heap.Word, SetAlloc, Holding;
      KeptSame(heap, heap, w.pool);
      var l;
      ghost var j;
      l, j := FindHolder(pool, p);
      r := NGX_DECLINED;
      if l != 0 {
        ghost var v := SetAlloc(w, j, 0).(live := w.live - {p});
        ReleaseHeld(heap, w, j);
        KeptSame(heap, heap.Free(p), w.pool);
        KeptNode(heap, heap.Free(p), w.pool, j, NODE_ALLOC, 0);
        heap := heap.Free(p);
        StoreWord(l + NODE_ALLOC, 0);
        KeptSlot(old(heap), heap, w, j, 0);
        w := v;
        r := NGX_OK;
      }
    }

    /** The loop of ngx_reset_pool and ngx_destroy_pool that frees what the large list holds. */
    method FreeLarge(pool: int)
      requires Valid(pool)
      modifies this`heap
      ensures heap.words == old(heap.words) && heap.live == w.live - Allocs(w.pool.large)
      ensures w.pool in Held(heap)
    {
      hide Held, World.Good, Heap.Owned, Heap.Word;
      RootReads(heap, w.pool);
      ghost var j, large := 0, w.pool.large;
      var l := LoadWord(pool + LARGE);
      while l != 0
        invariant 0 <= j <= |large| && l == NodeAddr(w.pool, j) && w.pool in Held(heap)
        invariant heap.words == old(heap.words) && heap.live == w.live - Allocs(large[..j])
        decreases |large| - j
      {
        NodeReads(heap, w.pool, j);
        FreeOne(heap, w, j);
        var alloc := LoadWord(l + NODE_ALLOC);
        if alloc != 0 {
          heap := heap.Free(alloc);
        }
        NodeReads(heap, w.pool, j);
        l := LoadWord(l + NODE_NEXT);
        j := j + 1;
      }
      if j < |large| {
        NodeReads(heap, w.pool, j);
      }
      assert large[..j] == large;
    }

    method ResetPool(pool: int)
      requires Valid(pool)
      modifies this
      ensures Valid(pool) && w == Reset(old(w))
      ensures Kept(old(heap), heap, w.pool)
    {
      hide Held, Kept, World.Good, Heap.Owned, Heap.Word, Rewinding;
      FreeLarge(pool);
      GoodBounds(w, 0);
      ghost var h0, i, w0 := heap, 0, w;
      ghost var v := Reset(w);
      StartRewinding(heap, w);
      var p := pool;
      while p != 0
        invariant Rewinding(h0, heap, w.pool, v.pool, i) && (p == 0 <==> i == |v.pool.blocks|)
        invariant 0 <= i <= |v.pool.blocks| && (i < |v.pool.blocks| ==> p == v.pool.blocks[i].base)
        invariant heap.live == h0.live && w == w0
        decreases |v.pool.blocks| - i
      {
        RewindStep(h0, heap, w.pool, v.pool, i);
        StoreWord(p + LAST, p + POOL_HEADER);
        StoreWord(p + FAILED, 0);
        p := LoadWord(p + NEXT);
        i := i + 1;
      }
      FinishRewinding(h0, heap, w.pool, v.pool);
      StoreWord(pool + CURRENT, pool);
      StoreWord(pool + LARGE, 0);
      KeptWords(old(heap), h0, heap, v.pool);
      ResetKeeps(w);
      w := v;
    }

    /** Every region of the pool is freed once, and no block is read after it is freed. */
    method DestroyPool(pool: int)
      requires Valid(pool)
      modifies this`heap
      ensures heap.words == old(heap.words) && heap.live == w.other
    {
      hide Held, World.Good, Heap.Owned, Heap.Word, Without, NextAddr, Allocs;
      GoodBounds(w, 0);
      FreeLarge(pool);
      HeaderReads(heap, w.pool, 0);
      AllFreed(heap, w);
      ghost var k, h0, blocks := 0, heap, w.pool.blocks;
      var p := pool;
      var n := LoadWord(pool + NEXT);
      while true
        invariant 0 <= k < |blocks| && p == blocks[k].base && n == NextAddr(w.pool, k)
        invariant heap.words == h0.words && heap == Without(h0, w.pool, k)
        decreases |blocks| - k
      {
        FreeBlock(h0, w.pool, k);
        heap := heap.Free(p);
        if n == 0 {
          break;
        }
        p := n;
        n := LoadWord(n + NEXT);
        k := k + 1;
      }
    }

    /** A client stores a byte of memory of its own: the pool does not change. */
    method ClientWrite(pool: int, a: int, word: int)
      requires Valid(pool) && ClientByte(w, a)
      modifies this`heap
      ensures Valid(pool)
    {
      hide Held, World.Good, ClientByte;
      ClientIsUnrelated(heap, w, a);
      SoundUnrelated(heap, w.pool, WordOf(a), word);
      heap := Put(heap, WordOf(a), word);
    }
  }
}
