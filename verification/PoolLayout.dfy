/** How a pool lies in memory: the struct fields at their offsets, and what one
    store does to the pool that memory represents. */
module PoolLayout {
  import opened RawMemory
  import opened PoolModel
  import opened PoolProofs

  // Offsets in ngx_pool_data_t and ngx_pool_t.
  const LAST: int := 0
  const END: int := 8
  const NEXT: int := 16
  const FAILED: int := 24
  const MAX: int := 32
  const CURRENT: int := 40
  const LARGE: int := 48
  // Offsets in ngx_pool_large_t.
  const NODE_NEXT: int := 0
  const NODE_ALLOC: int := 8

  function NextAddr(p: Pool, i: int): int
    requires 0 <= i < |p.blocks|
  {
    if i + 1 < |p.blocks| then p.blocks[i + 1].base else 0
  }

  function NodeAddr(p: Pool, j: int): int
    requires 0 <= j <= |p.large|
  {
    if j < |p.large| then p.large[j].node.start else 0
  }

  ghost predicate BlockLaid(h: Heap, p: Pool, i: int)
    requires 0 <= i < |p.blocks|
  {
    var b := p.blocks[i];
    && h.Word(b.base + LAST) == b.last && h.Word(b.base + END) == b.base + p.psize
    && h.Word(b.base + NEXT) == NextAddr(p, i) && h.Word(b.base + FAILED) == b.failed
  }

  ghost predicate NodeLaid(h: Heap, p: Pool, j: int)
    requires 0 <= j < |p.large|
  {
    var a := p.large[j].node.start;
    h.Word(a + NODE_NEXT) == NodeAddr(p, j + 1) && h.Word(a + NODE_ALLOC) == p.large[j].alloc
  }

  ghost predicate RootLaid(h: Heap, p: Pool)
    requires 0 <= p.cur < |p.blocks|
  {
    var a := p.blocks[0].base;
    && h.Word(a + MAX) == p.max && h.Word(a + CURRENT) == p.blocks[p.cur].base
    && h.Word(a + LARGE) == NodeAddr(p, 0)
  }

  /** A pool as it lies in memory. */
  datatype Image = Image(h: Heap, p: Pool) {

    ghost predicate Laid() {
      && 0 <= p.cur < |p.blocks|
      && RootLaid(h, p)
      && (forall i | 0 <= i < |p.blocks| :: BlockLaid(h, p, i))
      && forall j | 0 <= j < |p.large| :: NodeLaid(h, p, j)
    }

    /** A well-formed pool in allocated memory. */
    ghost predicate Sound() {
      && p.BlocksOk() && p.RegionsOk() && Laid()
      && forall i | 0 <= i < |p.blocks| :: p.blocks[i].base in h.live && h.live[p.blocks[i].base] == p.psize
    }

    /** The header of a block that is not in the chain yet. */
    ghost predicate NewLaid(b: Block) {
      && (forall i | 0 <= i < |p.blocks| :: Apart(p.blocks[i].base, p.psize, b.base, p.psize))
      && h.Word(b.base + LAST) == b.last && h.Word(b.base + END) == b.base + p.psize
      && h.Word(b.base + NEXT) == 0 && h.Word(b.base + FAILED) == b.failed
    }
  }

  function Put(h: Heap, a: int, v: int): Heap {
    Heap(h.words[a := v], h.live)
  }

  /** A word outside all headers and nodes. */
  ghost predicate Unrelated(p: Pool, a: int) {
    && (forall i | 0 <= i < |p.blocks| :: a < p.blocks[i].base || p.blocks[i].base + Header(i) <= a)
    && forall j | 0 <= j < |p.large| :: a < p.large[j].node.start || p.large[j].node.start + LARGE_NODE <= a
  }

  lemma StoreUnrelated(h: Heap, p: Pool, a: int, v: int)
    requires Image(h, p).Laid() && Unrelated(p, a)
    ensures Image(Put(h, a, v), p).Laid()
  {
    var g := Put(h, a, v);
    forall i | 0 <= i < |p.blocks| ensures BlockLaid(g, p, i) {
      assert BlockLaid(h, p, i);
    }
    forall j | 0 <= j < |p.large| ensures NodeLaid(g, p, j) {
      assert NodeLaid(h, p, j);
    }
  }

  lemma {:induction false} HeadersApart(p: Pool, i: int, k: int)
    requires p.BlocksOk() && 0 <= i < |p.blocks| && 0 <= k < |p.blocks| && i != k
    ensures Apart(p.blocks[i].base, p.psize, p.blocks[k].base, p.psize)
  {
    if i < k {
      assert Apart(p.blocks[i].base, p.psize, p.blocks[k].base, p.psize);
    } else {
      assert Apart(p.blocks[k].base, p.psize, p.blocks[i].base, p.psize);
    }
  }

  /** No node meets the header of any block. */
  lemma NodeOffHeaders(p: Pool, r: Region, k: int)
    requires p.BlocksOk() && InBlock(p, r) && 0 <= k < |p.blocks|
    ensures r.start + r.len <= p.blocks[k].base || p.blocks[k].base + Header(k) <= r.start
  {
    if r.blk != k { HeadersApart(p, r.blk, k); }
  }

  /** One header word is stored: the other blocks and all nodes stay as they were. */
  lemma HeaderStoreFrame(h: Heap, p: Pool, k: int, off: int, v: int)
    requires p.BlocksOk() && p.RegionsOk() && Image(h, p).Laid() && 0 <= k < |p.blocks| && 0 <= off <= Header(k) - 8
    ensures var g := Put(h, p.blocks[k].base + off, v);
      && (forall i | 0 <= i < |p.blocks| && i != k :: BlockLaid(g, p, i))
      && (forall j | 0 <= j < |p.large| :: NodeLaid(g, p, j))
      && (k != 0 ==> RootLaid(g, p))
  {
    var g := Put(h, p.blocks[k].base + off, v);
    forall i | 0 <= i < |p.blocks| && i != k ensures BlockLaid(g, p, i) {
      HeadersApart(p, i, k);
      assert BlockLaid(h, p, i);
    }
    forall j | 0 <= j < |p.large| ensures NodeLaid(g, p, j) {
      NodeOffHeaders(p, p.large[j].node, k);
      assert NodeLaid(h, p, j);
    }
    if k != 0 { HeadersApart(p, 0, k); }
  }

  /** A pool with the same addresses, read where block k alone was rewritten. */
  lemma Reread(g: Heap, p: Pool, q: Pool, k: int)
    requires 0 <= k < |p.blocks| <= |q.blocks| <= |p.blocks| + 1 && 0 <= q.cur < |q.blocks|
    requires q.psize == p.psize && q.large == p.large
    requires forall i | 0 <= i < |p.blocks| :: q.blocks[i].base == p.blocks[i].base && (i != k ==> q.blocks[i] == p.blocks[i])
    requires |q.blocks| == |p.blocks| + 1 ==> k == |p.blocks| - 1 && BlockLaid(g, q, k + 1)
    requires forall i | 0 <= i < |p.blocks| && i != k :: BlockLaid(g, p, i)
    requires forall j | 0 <= j < |p.large| :: NodeLaid(g, p, j)
    requires BlockLaid(g, q, k) && RootLaid(g, q)
    ensures Image(g, q).Laid()
  {
    forall i | 0 <= i < |q.blocks| ensures BlockLaid(g, q, i) {
      if i < |p.blocks| && i != k {
        assert BlockLaid(g, p, i);
        assert NextAddr(p, i) == NextAddr(q, i);
      }
    }
    forall j | 0 <= j < |q.large| ensures NodeLaid(g, q, j) {
      assert NodeLaid(g, p, j);
    }
  }

  lemma StoreLast(h: Heap, p: Pool, k: int, v: int)
    requires p.BlocksOk() && p.RegionsOk() && Image(h, p).Laid() && 0 <= k < |p.blocks|
    ensures Image(Put(h, p.blocks[k].base + LAST, v), Bump(p, k, v)).Laid()
  {
    HeaderStoreFrame(h, p, k, LAST, v);
    assert BlockLaid(h, p, k) && RootLaid(h, p);
    Reread(Put(h, p.blocks[k].base + LAST, v), p, Bump(p, k, v), k);
  }

  function SetFailed(p: Pool, k: int, f: int): Pool
    requires 0 <= k < |p.blocks|
  {
    p.(blocks := p.blocks[k := p.blocks[k].(failed := f)])
  }

  lemma StoreFailed(h: Heap, p: Pool, k: int, f: int)
    requires p.BlocksOk() && p.RegionsOk() && Image(h, p).Laid() && 0 <= k < |p.blocks|
    ensures Image(Put(h, p.blocks[k].base + FAILED, f), SetFailed(p, k, f)).Laid()
  {
    HeaderStoreFrame(h, p, k, FAILED, f);
    assert BlockLaid(h, p, k) && RootLaid(h, p);
    Reread(Put(h, p.blocks[k].base + FAILED, f), p, SetFailed(p, k, f), k);
  }

  lemma StoreCurrent(h: Heap, p: Pool, k: int)
    requires p.BlocksOk() && p.RegionsOk() && Image(h, p).Laid() && 0 <= k < |p.blocks|
    ensures Image(Put(h, p.blocks[0].base + CURRENT, p.blocks[k].base), p.(cur := k)).Laid()
  {
    HeaderStoreFrame(h, p, 0, CURRENT, p.blocks[k].base);
    assert BlockLaid(h, p, 0) && RootLaid(h, p);
    Reread(Put(h, p.blocks[0].base + CURRENT, p.blocks[k].base), p, p.(cur := k), 0);
  }

  lemma PsizeIsBig(p: Pool)
    requires p.BlocksOk()
    ensures MIN_POOL_SIZE <= p.psize
  {
  }

  /** The link to a block whose own header is already written. */
  lemma LinkBlock(h: Heap, p: Pool, b: Block)
    requires p.BlocksOk() && p.RegionsOk() && Image(h, p).Laid()
    requires Image(h, p).NewLaid(b)
    ensures Image(Put(h, p.blocks[|p.blocks| - 1].base + NEXT, b.base), p.(blocks := p.blocks + [b])).Laid()
  {
    hide Pool.BlocksOk, Pool.RegionsOk;
    PsizeIsBig(p);
    var k := |p.blocks| - 1;
    var g := Put(h, p.blocks[k].base + NEXT, b.base);
    HeaderStoreFrame(h, p, k, NEXT, b.base);
    assert BlockLaid(h, p, k) && RootLaid(h, p);
    assert Apart(p.blocks[k].base, p.psize, b.base, p.psize);
    Reread(g, p, p.(blocks := p.blocks + [b]), k);
  }

  /** The store to `pool->large` that links a node already written. */
  lemma LinkNode(h: Heap, p: Pool, r: Region, alloc: int)
    requires p.BlocksOk() && p.RegionsOk() && Image(h, p).Laid()
    requires InBlock(p, r) && r.len == LARGE_NODE
    requires h.Word(r.start + NODE_NEXT) == NodeAddr(p, 0) && h.Word(r.start + NODE_ALLOC) == alloc
    ensures Image(Put(h, p.blocks[0].base + LARGE, r.start), p.(large := [Large(r, alloc)] + p.large)).Laid()
  {
    HeaderStoreFrame(h, p, 0, LARGE, r.start);
    assert BlockLaid(h, p, 0) && RootLaid(h, p);
    NodeOffHeaders(p, r, 0);
    RereadLonger(Put(h, p.blocks[0].base + LARGE, r.start), p, r, alloc);
  }

  lemma RereadLonger(g: Heap, p: Pool, r: Region, alloc: int)
    requires 0 <= p.cur < |p.blocks|
    requires forall i | 0 <= i < |p.blocks| :: BlockLaid(g, p, i)
    requires forall j | 0 <= j < |p.large| :: NodeLaid(g, p, j)
    requires g.Word(r.start + NODE_NEXT) == NodeAddr(p, 0) && g.Word(r.start + NODE_ALLOC) == alloc
    requires RootLaid(g, p.(large := [Large(r, alloc)] + p.large))
    ensures Image(g, p.(large := [Large(r, alloc)] + p.large)).Laid()
  {
    var q := p.(large := [Large(r, alloc)] + p.large);
    forall i | 0 <= i < |q.blocks| ensures BlockLaid(g, q, i) {
      assert BlockLaid(g, p, i);
    }
    forall j | 0 <= j < |q.large| ensures NodeLaid(g, q, j) {
      assert j > 0 ==> NodeLaid(g, p, j - 1);
    }
  }

  lemma NodesApart(p: Pool, j: int, k: int)
    requires p.RegionsOk() && 0 <= j < |p.large| && 0 <= k < |p.large| && j != k
    ensures Disjoint(p.large[j].node, p.large[k].node)
    ensures p.large[j].node.len == LARGE_NODE && p.large[k].node.len == LARGE_NODE
  {
    if j < k {
      assert Disjoint(p.large[j].node, p.large[k].node);
    } else {
      assert Disjoint(p.large[k].node, p.large[j].node);
    }
  }

  lemma StoreAlloc(h: Heap, p: Pool, k: int, alloc: int)
    requires p.BlocksOk() && p.RegionsOk() && Image(h, p).Laid() && 0 <= k < |p.large|
    ensures Image(Put(h, p.large[k].node.start + NODE_ALLOC, alloc), p.(large := p.large[k := p.large[k].(alloc := alloc)])).Laid()
  {
    var a := p.large[k].node.start + NODE_ALLOC;
    assert InBlock(p, p.large[k].node) && p.large[k].node.len == LARGE_NODE;
    forall i | 0 <= i < |p.blocks| ensures a + 8 <= p.blocks[i].base || p.blocks[i].base + Header(i) <= a {
      NodeOffHeaders(p, p.large[k].node, i);
    }
    forall j | 0 <= j < |p.large| && j != k
      ensures a + 8 <= p.large[j].node.start || p.large[j].node.start + LARGE_NODE <= a
    {
      NodesApart(p, j, k);
    }
    StoreInNode(h, p, k, alloc);
  }

  lemma StoreInNode(h: Heap, p: Pool, k: int, alloc: int)
    requires Image(h, p).Laid() && 0 <= k < |p.large|
    requires var a := p.large[k].node.start + NODE_ALLOC;
      && (forall i | 0 <= i < |p.blocks| :: a + 8 <= p.blocks[i].base || p.blocks[i].base + Header(i) <= a)
      && forall j | 0 <= j < |p.large| && j != k :: a + 8 <= p.large[j].node.start || p.large[j].node.start + LARGE_NODE <= a
    ensures Image(Put(h, p.large[k].node.start + NODE_ALLOC, alloc), p.(large := p.large[k := p.large[k].(alloc := alloc)])).Laid()
  {
    var g := Put(h, p.large[k].node.start + NODE_ALLOC, alloc);
    var q := p.(large := p.large[k := p.large[k].(alloc := alloc)]);
    forall i | 0 <= i < |q.blocks| ensures BlockLaid(g, q, i) {
      assert BlockLaid(h, p, i);
    }
    forall j | 0 <= j < |q.large| ensures NodeLaid(g, q, j) {
      assert NodeLaid(h, p, j);
    }
  }

  // ----- a well-formed pool in allocated memory -----

  /** The well-formed pools that lie in this heap's allocated memory. */
  ghost function Held(h: Heap): iset<Pool> {
    iset p: Pool | Image(h, p).Sound()
  }

  /** Nothing outside the pool's own headers and nodes has been written. */
  ghost predicate Kept(h: Heap, g: Heap, p: Pool) {
    forall a | Unrelated(p, a) :: g.Word(a) == h.Word(a)
  }

  lemma HeaderReads(h: Heap, p: Pool, i: int)
    requires p in Held(h) && 0 <= i < |p.blocks|
    ensures var b := p.blocks[i].base; var x := p.blocks[i];
      && b > 0
      && h.Owned(b + LAST, 8) && h.Word(b + LAST) == x.last
      && h.Owned(b + END, 8) && h.Word(b + END) == b + p.psize
      && h.Owned(b + NEXT, 8) && h.Word(b + NEXT) == NextAddr(p, i)
      && (NextAddr(p, i) == 0 <==> i + 1 == |p.blocks|)
      && h.Owned(b + FAILED, 8) && h.Word(b + FAILED) == x.failed
  {
    var b := p.blocks[i].base;
    assert b in h.live && h.live[b] == p.psize;
    assert BlockLaid(h, p, i);
  }

  lemma RootReads(h: Heap, p: Pool)
    requires p in Held(h)
    ensures 0 <= p.cur < |p.blocks|
    ensures var b := p.blocks[0].base;
      && h.Owned(b + MAX, 8) && h.Word(b + MAX) == p.max
      && h.Owned(b + CURRENT, 8) && h.Word(b + CURRENT) == p.blocks[p.cur].base
      && h.Owned(b + LARGE, 8) && h.Word(b + LARGE) == NodeAddr(p, 0)
  {
    var b := p.blocks[0].base;
    assert b in h.live && h.live[b] == p.psize;
  }

  lemma RegionOwned(h: Heap, p: Pool, r: Region)
    requires p in Held(h) && InBlock(p, r) && r.len == LARGE_NODE
    ensures h.Owned(r.start + NODE_NEXT, 8) && h.Owned(r.start + NODE_ALLOC, 8) && r.start > 0
  {
    var b := p.blocks[r.blk].base;
    assert b in h.live && h.live[b] == p.psize;
  }

  lemma NodeReads(h: Heap, p: Pool, j: int)
    requires p in Held(h) && 0 <= j < |p.large|
    ensures var a := p.large[j].node.start;
      && a > 0
      && h.Owned(a + NODE_NEXT, 8) && h.Word(a + NODE_NEXT) == NodeAddr(p, j + 1)
      && h.Owned(a + NODE_ALLOC, 8) && h.Word(a + NODE_ALLOC) == p.large[j].alloc
  {
    RegionOwned(h, p, p.large[j].node);
    assert NodeLaid(h, p, j);
  }

  lemma SoundLast(h: Heap, p: Pool, k: int, v: int)
    requires p in Held(h) && 0 <= k < |p.blocks| && p.blocks[k].last <= v <= p.blocks[k].base + p.psize
    ensures Bump(p, k, v) in Held(Put(h, p.blocks[k].base + LAST, v))
  {
    StoreLast(h, p, k, v);
    hide Image.Laid;
    var q := Bump(p, k, v);
    assert forall i | 0 <= i < |q.blocks| :: q.blocks[i].base == p.blocks[i].base;
    GrowthKeepsRegions(p, q);
  }

  lemma SoundFailed(h: Heap, p: Pool, k: int, f: int)
    requires p in Held(h) && 0 <= k < |p.blocks|
    ensures SetFailed(p, k, f) in Held(Put(h, p.blocks[k].base + FAILED, f))
  {
    StoreFailed(h, p, k, f);
    hide Image.Laid;
    var q := SetFailed(p, k, f);
    assert forall i | 0 <= i < |q.blocks| :: q.blocks[i].base == p.blocks[i].base && q.blocks[i].last == p.blocks[i].last;
    GrowthKeepsRegions(p, q);
  }

  lemma SoundCurrent(h: Heap, p: Pool, k: int)
    requires p in Held(h) && 0 <= k < |p.blocks|
    ensures p.(cur := k) in Held(Put(h, p.blocks[0].base + CURRENT, p.blocks[k].base))
  {
    StoreCurrent(h, p, k);
    hide Image.Laid;
    GrowthKeepsRegions(p, p.(cur := k));
  }

  lemma KeptSame(h: Heap, g: Heap, p: Pool)
    requires h.words == g.words
    ensures Kept(h, g, p)
  {
  }

  lemma KeptTrans(h: Heap, g: Heap, k: Heap, p: Pool)
    requires Kept(h, g, p) && Kept(g, k, p)
    ensures Kept(h, k, p)
  {
  }

  lemma KeptHeader(h: Heap, g: Heap, p: Pool, i: int, off: int, v: int)
    requires Kept(h, g, p) && 0 <= i < |p.blocks| && 0 <= off < Header(i)
    ensures Kept(h, Put(g, p.blocks[i].base + off, v), p)
  {
    assert !Unrelated(p, p.blocks[i].base + off);
  }

  lemma KeptNode(h: Heap, g: Heap, p: Pool, j: int, off: int, v: int)
    requires Kept(h, g, p) && 0 <= j < |p.large| && 0 <= off < LARGE_NODE
    ensures Kept(h, Put(g, p.large[j].node.start + off, v), p)
  {
    assert !Unrelated(p, p.large[j].node.start + off);
  }

  /** What a smaller pool kept, a larger one keeps. */
  lemma KeptGrows(h: Heap, g: Heap, p: Pool, q: Pool)
    requires Kept(h, g, p) && |p.blocks| <= |q.blocks| && |p.large| <= |q.large|
    requires forall i | 0 <= i < |p.blocks| :: q.blocks[i].base == p.blocks[i].base
    requires forall j | 0 <= j < |p.large| :: p.large[j].node == q.large[|q.large| - |p.large| + j].node
    ensures Kept(h, g, q)
  {
    forall a | Unrelated(q, a) ensures Unrelated(p, a) {
      var d := |q.large| - |p.large|;
      forall j | 0 <= j < |p.large| ensures a < p.large[j].node.start || p.large[j].node.start + LARGE_NODE <= a {
        assert q.large[d + j].node == p.large[j].node;
      }
    }
  }
}
