/** What every pool call keeps, and what holds over whole runs of calls. */
module PoolProofs {
  import opened RawMemory
  import opened PoolModel

  // ----- ageing -----

  lemma {:induction false} AgeEffect(p: Pool, i: int)
    requires 0 <= i < |p.blocks|
    ensures var q := Age(p, i);
      && q == p.(blocks := q.blocks, cur := q.cur) && |q.blocks| == |p.blocks|
      && (forall j | 0 <= j < |p.blocks| :: q.blocks[j] ==
           if i <= j < |p.blocks| - 1 then p.blocks[j].(failed := p.blocks[j].failed + 1) else p.blocks[j])
      && (q.cur == p.cur || (i < q.cur < |p.blocks| && p.blocks[q.cur - 1].failed > 4))
      && (forall j | i <= j < |p.blocks| - 1 && p.blocks[j].failed > 4 :: j < q.cur)
    decreases |p.blocks| - i
  {
    if i + 1 < |p.blocks| {
      var f := p.blocks[i].failed;
      var p1 := p.(blocks := p.blocks[i := p.blocks[i].(failed := f + 1)], cur := if f > 4 then i + 1 else p.cur);
      AgeEffect(p1, i + 1);
      var q := Age(p, i);
      assert q == Age(p1, i + 1);
      forall j | 0 <= j < |p.blocks|
        ensures q.blocks[j] ==
          if i <= j < |p.blocks| - 1 then p.blocks[j].(failed := p.blocks[j].failed + 1) else p.blocks[j]
      {
      }
    }
  }

  lemma CurInChain(p: Pool)
    requires p.AgesOk()
    ensures 0 <= p.cur < |p.blocks|
  {
  }

  lemma AgeKeepsAges(p: Pool)
    requires p.AgesOk()
    ensures var q := Age(p, p.cur); var n := |p.blocks|;
      && |q.blocks| == n && p.cur <= q.cur < n && q.blocks[n - 1].failed == 0
      && (forall i | 0 <= i < n :: if i < q.cur then q.blocks[i].failed == 6 else 0 <= q.blocks[i].failed <= 5)
  {
    var q := Age(p, p.cur);
    AgeEffect(p, p.cur);
    assert forall i | p.cur <= i < q.cur :: p.blocks[i].failed >= p.blocks[q.cur - 1].failed;
  }

  lemma AgeKeepsOrder(p: Pool)
    requires p.AgesOk()
    ensures var q := Age(p, p.cur).blocks; forall i, j | 0 <= i < j < |q| :: q[i].failed >= q[j].failed
  {
    AgeEffect(p, p.cur);
  }

  lemma AddBlockKeepsAges(p: Pool, b: Block)
    requires p.AgesOk() && b.failed == 0
    ensures var q := Age(p, p.cur); q.(blocks := q.blocks + [b]).AgesOk()
  {
    hide Age;
    AgeKeepsAges(p);
    AgeKeepsOrder(p);
  }

  /** The exact ages of a chain that was never reset: block i of n has failed
      n - 2 - i times, clamped to 0..6, and `current` is block n - 7 (or 0). */
  ghost predicate FreshAges(p: Pool) {
    var n := |p.blocks|;
    && p.cur == (if n <= 7 then 0 else n - 7)
    && forall i | 0 <= i < n :: p.blocks[i].failed == Clamp(n - 2 - i)
  }

  function Clamp(k: int): int {
    if k < 0 then 0 else if k > 6 then 6 else k
  }

  lemma AddBlockKeepsFreshAges(p: Pool, b: Block)
    requires |p.blocks| > 0 && FreshAges(p) && b.failed == 0
    ensures var q := Age(p, p.cur); FreshAges(q.(blocks := q.blocks + [b]))
  {
    AgeEffect(p, p.cur);
    var n := |p.blocks|;
    assert n > 7 ==> p.blocks[n - 7].failed == 5;
  }

  // ----- carving -----

  /** q has the blocks of p, filled at least as far, and perhaps more; the rest is the same. */
  ghost predicate Grows(p: Pool, q: Pool) {
    && q.psize == p.psize && q.large == p.large && q.clients == p.clients
    && |p.blocks| <= |q.blocks|
    && forall i | 0 <= i < |p.blocks| :: q.blocks[i].base == p.blocks[i].base && p.blocks[i].last <= q.blocks[i].last
  }

  lemma GrowthKeepsRegions(p: Pool, q: Pool)
    requires p.RegionsOk() && Grows(p, q)
    ensures q.RegionsOk()
  {
    assert forall x: Region | InBlock(p, x) :: InBlock(q, x);
  }

  /** What lies past the old `last` of its block, or in a new block, meets nothing carved before. */
  lemma GrowthIsClear(p: Pool, q: Pool, r: Region)
    requires p.BlocksOk() && p.RegionsOk() && q.BlocksOk() && Grows(p, q)
    requires InBlock(q, r) && (r.blk < |p.blocks| ==> p.blocks[r.blk].last <= r.start)
    ensures q.Clear(r)
  {
    forall x: Region | InBlock(p, x) ensures Disjoint(x, r) {
      if x.blk < r.blk {
        assert Apart(q.blocks[x.blk].base, q.psize, q.blocks[r.blk].base, q.psize);
      } else if r.blk < x.blk {
        assert Apart(q.blocks[r.blk].base, q.psize, q.blocks[x.blk].base, q.psize);
      }
    }
  }

  lemma BumpKeepsAges(p: Pool, i: int, last: int)
    requires p.AgesOk() && 0 <= i < |p.blocks|
    ensures Bump(p, i, last).AgesOk()
  {
    assert forall k | 0 <= k < |p.blocks| :: Bump(p, i, last).blocks[k].failed == p.blocks[k].failed;
  }

  lemma StartInBlock(p: Pool, i: int, align: bool)
    requires p.BlocksOk() && 0 <= i < |p.blocks|
    ensures var m := Start(p.blocks[i], align);
      && p.blocks[i].last <= m <= p.blocks[i].base + p.psize && (align ==> m % 8 == 0)
      && m == if align then AlignPtr(p.blocks[i].last) else p.blocks[i].last
  {
    var end := p.blocks[i].base + p.psize;
    EndAligned(p.blocks[i].base, p.psize);
    assert 0 <= p.blocks[i].last <= end < ADDRESS_SPACE;
    hide Pool.BlocksOk;
    AlignPtrRoundsUp(p.blocks[i].last, end);
  }

  lemma BumpKeepsBlocks(p: Pool, i: int, m: int, size: int, align: bool)
    requires p.BlocksOk() && 0 <= i < |p.blocks| && 0 <= size
    requires p.blocks[i].last <= m && m + size <= p.blocks[i].base + p.psize && (align ==> m % 8 == 0)
    ensures var q := Bump(p, i, m + size);
            q.BlocksOk() && Grows(p, q) && InBlock(q, Region(m, size, i, align))
  {
    var q := Bump(p, i, m + size);
    assert forall k | 0 <= k < |p.blocks| :: q.blocks[k].base == p.blocks[k].base;
  }

  lemma RoomBound(p: Pool, i: int, size: int, align: bool)
    requires 0 <= i < |p.blocks| && HasRoom(p, i, size, align)
    ensures Start(p.blocks[i], align) + size <= p.blocks[i].base + p.psize
  {
  }

  lemma BumpKeeps(p: Pool, i: int, size: int, align: bool)
    requires p.Ok() && 0 <= i < |p.blocks| && 0 <= size && HasRoom(p, i, size, align)
    ensures var m := Start(p.blocks[i], align); var r := Region(m, size, i, align);
            var q := Bump(p, i, m + size);
            q.Settled(r)
  {
    hide Pool.BlocksOk, Pool.AgesOk, Pool.RegionsOk, Pool.Clear, HasRoom, Bump, Start;
    var m := Start(p.blocks[i], align);
    var r := Region(m, size, i, align);
    var q := Bump(p, i, m + size);
    assert m + size <= p.blocks[i].base + p.psize by { RoomBound(p, i, size, align); }
    StartInBlock(p, i, align);
    BumpKeepsAges(p, i, m + size);
    BumpKeepsBlocks(p, i, m, size, align);
    assert q.RegionsOk() by { GrowthKeepsRegions(p, q); }
    assert q.Clear(r) by { GrowthIsClear(p, q, r); }
  }

  lemma NewBlockOk(w: World, choice: int)
    requires w.pool.BlocksOk() && w.ChainLive() && CanPlace(w.live, choice, w.pool.psize)
    ensures forall i | 0 <= i < |w.pool.blocks| :: Apart(w.pool.blocks[i].base, w.pool.psize, choice, w.pool.psize)
  {
    forall i | 0 <= i < |w.pool.blocks| ensures Apart(w.pool.blocks[i].base, w.pool.psize, choice, w.pool.psize) {
      assert w.pool.blocks[i].base in w.live;
    }
  }

  lemma AppendKeepsBlocks(p: Pool, q: Pool, b: Block)
    requires p.BlocksOk() && q.psize == p.psize && q.max == p.max && |q.blocks| == |p.blocks| + 1
    requires forall i | 0 <= i < |p.blocks| :: q.blocks[i].base == p.blocks[i].base && q.blocks[i].last == p.blocks[i].last
    requires q.blocks[|p.blocks|] == b && |p.blocks| > 0
    requires 0 < b.base && b.base % 16 == 0 && b.base + p.psize < ADDRESS_SPACE
    requires b.base + BLOCK_HEADER <= b.last <= b.base + p.psize
    requires forall i | 0 <= i < |p.blocks| :: Apart(p.blocks[i].base, p.psize, b.base, p.psize)
    ensures q.BlocksOk()
  {
  }

  lemma AddBlockShape(w: World, size: int, align: bool, choice: int)
    requires 0 <= w.pool.cur < |w.pool.blocks| && 0 <= size
    ensures var c := AddBlock(w, size, align, choice); var p := w.pool;
      c.Carved? ==> (
        && CanPlace(w.live, choice, p.psize)
        && c.region == Region(choice + BLOCK_HEADER, size, |p.blocks|, align)
        && Grows(p, c.world.pool) && c.world.pool.max == p.max && |c.world.pool.blocks| == |p.blocks| + 1
        && (forall i | 0 <= i < |p.blocks| :: c.world.pool.blocks[i].last == p.blocks[i].last)
        && c.world.pool.blocks[|p.blocks|] == Block(choice, choice + BLOCK_HEADER + size, 0))
  {
    AgeEffect(w.pool, w.pool.cur);
  }

  /** The new block does not meet the old ones, so nothing in it meets what they hold. */
  lemma AddBlockKeeps(w: World, size: int, align: bool, choice: int)
    requires w.pool.Ok() && w.ChainLive()
    requires 0 <= size <= w.pool.psize - POOL_HEADER
    ensures var c := AddBlock(w, size, align, choice);
      c.Carved? ==> c.world.pool.Settled(c.region)
                    && c.region.aligned == align && c.region.len == size
  {
    var p := w.pool;
    hide Pool.BlocksOk, Pool.RegionsOk, Pool.AgesOk, Pool.Clear, InBlock, Grows, Apart, Age, World.ChainLive, LiveApart;
    CurInChain(w.pool);
    var c := AddBlock(w, size, align, choice);
    if c.Carved? {
      AddBlockShape(w, size, align, choice);
      NewBlockOk(w, choice);
      AppendClear(p, c.world.pool, c.region, choice);
      AddBlockKeepsAges(p, Block(choice, c.region.start + size, 0));
    }
  }

  lemma AppendClear(p: Pool, q: Pool, r: Region, base: int)
    requires p.BlocksOk() && p.RegionsOk() && Grows(p, q) && q.max == p.max && |q.blocks| == |p.blocks| + 1 > 1
    requires forall i | 0 <= i < |p.blocks| :: q.blocks[i].last == p.blocks[i].last
    requires r.start == base + BLOCK_HEADER && r.blk == |p.blocks| && 0 <= r.len <= p.psize - BLOCK_HEADER
    requires q.blocks[|p.blocks|] == Block(base, r.start + r.len, 0)
    requires 0 < base && base % 16 == 0 && base + p.psize < ADDRESS_SPACE
    requires forall i | 0 <= i < |p.blocks| :: Apart(p.blocks[i].base, p.psize, base, p.psize)
    ensures q.BlocksOk() && q.RegionsOk() && InBlock(q, r) && q.Clear(r)
  {
    hide Pool.BlocksOk, Pool.RegionsOk, Pool.Clear, InBlock, Grows, Apart;
    InNewBlock(p, q, r, base);
    SameBases(p, q);
    AppendKeepsBlocks(p, q, Block(base, r.start + r.len, 0));
    GrowthKeepsRegions(p, q);
    GrowthIsClear(p, q, r);
  }

  lemma SameBases(p: Pool, q: Pool)
    requires Grows(p, q)
    ensures q.psize == p.psize && |p.blocks| <= |q.blocks|
    ensures forall i | 0 <= i < |p.blocks| :: q.blocks[i].base == p.blocks[i].base
  {
  }

  lemma InNewBlock(p: Pool, q: Pool, r: Region, base: int)
    requires |q.blocks| == |p.blocks| + 1 > 1
    requires r.start == base + BLOCK_HEADER && r.blk == |p.blocks| && 0 <= r.len
    requires q.blocks[|p.blocks|] == Block(base, r.start + r.len, 0) && base % 16 == 0
    ensures InBlock(q, r)
  {
    EndAligned(base, BLOCK_HEADER);
  }

  lemma OkBounds(p: Pool, size: int)
    requires p.Ok() && (size <= p.max || size == LARGE_NODE)
    ensures 0 <= p.cur < |p.blocks| && size <= p.psize - POOL_HEADER
  {
  }

  /** Every request a pool may make of its blocks is carved clear of all others. */
  lemma CarveKeeps(w: World, size: int, align: bool, choice: int)
    requires w.pool.Ok() && w.ChainLive()
    requires 0 <= size && (size <= w.pool.max || size == LARGE_NODE)
    ensures var c := CarveSmall(w, size, align, choice);
      c.Carved? ==> c.world.pool.Settled(c.region) && c.region.len == size && c.region.aligned == align
  {
    hide Pool.Ok, Pool.Settled, World.ChainLive;
    OkBounds(w.pool, size);
    var i := Fit(w.pool, w.pool.cur, size, align);
    var c := CarveSmall(w, size, align, choice);
    if i < |w.pool.blocks| {
      var m := Start(w.pool.blocks[i], align);
      assert c.world.pool == Bump(w.pool, i, m + size) && c.region == Region(m, size, i, align);
      BumpKeeps(w.pool, i, size, align);
    } else {
      assert c == AddBlock(w, size, align, choice);
      AddBlockKeeps(w, size, align, choice);
    }
  }

  /** First fit: block k is used just when it is the first from `current` on
      with room; a block is added just when none has room and malloc grants it. */
  lemma FirstFit(w: World, size: int, align: bool, choice: int, k: int)
    requires w.pool.AgesOk() && w.pool.cur <= k <= |w.pool.blocks|
    requires forall j | w.pool.cur <= j < k :: !HasRoom(w.pool, j, size, align)
    requires k < |w.pool.blocks| ==> HasRoom(w.pool, k, size, align)
    ensures var c := CarveSmall(w, size, align, choice); var n := |w.pool.blocks|;
      && (c.Full? <==> k == n && !CanPlace(w.live, choice, w.pool.psize))
      && (c.Carved? ==> c.region.blk == k && |c.world.pool.blocks| == if k < n then n else n + 1)
      && (k < n ==> c.region.start == Start(w.pool.blocks[k], align))
  {
    assert Fit(w.pool, w.pool.cur, size, align) == k;
    AgeEffect(w.pool, w.pool.cur);
  }

  // ----- the heap -----

  lemma CarveConserves(w: World, size: int, align: bool, choice: int)
    requires w.Conserved() && 0 <= w.pool.cur < |w.pool.blocks| && 0 <= size
    ensures var c := CarveSmall(w, size, align, choice);
      c.Carved? ==> c.world.Conserved() && c.world.pool.large == w.pool.large && c.world.other == w.other
                    && c.world.pool.clients == w.pool.clients
  {
    var i := Fit(w.pool, w.pool.cur, size, align);
    var c := CarveSmall(w, size, align, choice);
    if i < |w.pool.blocks| {
      var q := c.world.pool;
      assert forall k | 0 <= k < |q.blocks| :: q.blocks[k].base == w.pool.blocks[k].base;
      forall a ensures Holds(q, a) <==> Holds(w.pool, a) {
        SameHolds(w.pool, q, a);
      }
    } else if c.Carved? {
      AddBlockShape(w, size, align, choice);
      AppendConserves(w, c.world, choice);
    }
  }

  lemma SameHolds(p: Pool, q: Pool, a: int)
    requires |p.blocks| == |q.blocks| && forall k | 0 <= k < |p.blocks| :: p.blocks[k].base == q.blocks[k].base
    requires p.large == q.large
    ensures Holds(p, a) <==> Holds(q, a)
  {
    forall i | 0 <= i < |p.blocks| ensures p.blocks[i].base == a <==> q.blocks[i].base == a {
    }
  }

  lemma AppendHolds(p: Pool, q: Pool, base: int)
    requires Grows(p, q) && |q.blocks| == |p.blocks| + 1 && q.blocks[|p.blocks|].base == base
    ensures q.large == p.large
    ensures forall a :: Holds(q, a) <==> Holds(p, a) || a == base
  {
    assert q.blocks[|p.blocks|].base == base;
    forall a ensures Holds(q, a) <==> Holds(p, a) || a == base {
      if i :| 0 <= i < |p.blocks| && p.blocks[i].base == a {
        assert q.blocks[i].base == a;
      }
    }
  }

  /** What is about to come from malloc is neither live nor held. */
  lemma NewIsNotHeld(w: World, base: int)
    requires w.Conserved() && CanPlace(w.live, base, w.pool.psize)
    ensures base !in w.live && base != 0 && !Holds(w.pool, base)
  {
    assert base in w.live ==> Apart(base, Extent(w.live[base]), base, Extent(w.pool.psize));
  }

  lemma BasesDiffer(p: Pool, base: int)
    requires base != 0 && !Holds(p, base)
    ensures forall i | 0 <= i < |p.blocks| :: p.blocks[i].base != base
    ensures forall j | 0 <= j < |p.large| :: p.large[j].alloc != base
  {
    forall i | 0 <= i < |p.blocks| ensures p.blocks[i].base != base {
      assert p.blocks[i].base == base ==> Holds(p, base);
    }
    forall j | 0 <= j < |p.large| ensures p.large[j].alloc != base {
      assert p.large[j].alloc == base ==> Holds(p, base);
    }
  }

  lemma AppendConserves(w: World, v: World, base: int)
    requires w.Conserved() && CanPlace(w.live, base, w.pool.psize)
    requires v.live == w.live[base := w.pool.psize] && v.other == w.other && Grows(w.pool, v.pool)
    requires |v.pool.blocks| == |w.pool.blocks| + 1 && v.pool.blocks[|w.pool.blocks|].base == base
    ensures v.Conserved()
  {
    PlaceKeepsApart(w.live, base, w.pool.psize);
    hide LiveApart, CanPlace, Holds, Grows;
    NewIsNotHeld(w, base);
    SameBases(w.pool, v.pool);
    AppendHolds(w.pool, v.pool, base);
    BasesDiffer(w.pool, base);
  }

  /** A region just got from malloc counts as live outside the pool until a node holds it. */
  function Pending(w: World, a: int, size: int): World {
    World(w.pool, w.live[a := size], w.other[a := size])
  }

  lemma PendingConserved(w: World, a: int, size: int)
    requires w.Conserved() && CanPlace(w.live, a, size)
    ensures Pending(w, a, size).Conserved() && a !in w.live && a !in w.other && !Holds(w.pool, a)
  {
    PlaceKeepsApart(w.live, a, size);
    assert !Holds(w.pool, a);
  }

  lemma PushConserves(v: World, node: Region, a: int, other: map<int, int>)
    requires v.Conserved() && a > 0 && a in v.other && a !in other && other == v.other - {a}
    ensures PushLarge(v, node, a).(other := other).Conserved()
  {
    var u := PushLarge(v, node, a).(other := other);
    assert u.pool.large[0].alloc == a;
    assert !Holds(v.pool, a);
    forall b ensures Holds(u.pool, b) <==> Holds(v.pool, b) || b == a {
      if j :| 0 <= j < |v.pool.large| && v.pool.large[j].alloc == b && b != 0 {
        assert u.pool.large[j + 1].alloc == b;
      }
    }
    NotHeld(v.pool, a);
  }

  lemma NotHeld(p: Pool, a: int)
    requires !Holds(p, a) && a != 0
    ensures forall i | 0 <= i < |p.blocks| :: p.blocks[i].base != a
    ensures forall j | 0 <= j < |p.large| :: p.large[j].alloc != a
  {
  }

  lemma SetAllocConserves(w: World, j: int, a: int, size: int)
    requires w.Conserved() && CanPlace(w.live, a, size)
    requires 0 <= j < |w.pool.large| && w.pool.large[j].alloc == 0
    ensures SetAlloc(w.(live := w.live[a := size]), j, a).Conserved()
  {
    var u := SetAlloc(w.(live := w.live[a := size]), j, a);
    PendingConserved(w, a, size);
    NotHeld(w.pool, a);
    assert u.pool.large[j].alloc == a;
    forall b ensures Holds(u.pool, b) <==> Holds(w.pool, b) || b == a {
      if k :| 0 <= k < |w.pool.large| && w.pool.large[k].alloc == b && b != 0 {
        assert u.pool.large[k].alloc == b;
      }
    }
  }

  lemma PfreeConserves(w: World, j: int)
    requires w.Conserved() && 0 <= j < |w.pool.large|
    ensures SetAlloc(w, j, 0).(live := w.live - {w.pool.large[j].alloc}).Conserved()
  {
    var a := w.pool.large[j].alloc;
    var u := SetAlloc(w, j, 0).(live := w.live - {a});
    forall b ensures Holds(u.pool, b) <==> Holds(w.pool, b) && b != a {
      if k :| 0 <= k < |w.pool.large| && w.pool.large[k].alloc == b && b != 0 && b != a {
        assert u.pool.large[k].alloc == b;
      }
    }
    assert a != 0 ==> Holds(w.pool, a);
  }

  lemma ResetConserves(w: World)
    requires w.Conserved()
    ensures Reset(w).Conserved()
  {
    var u := Reset(w);
    var held := Allocs(w.pool.large);
    assert forall a | a in held :: Holds(w.pool, a) && a != 0;
    assert forall j | 0 <= j < |w.pool.large| && w.pool.large[j].alloc != 0 :: w.pool.large[j].alloc in held;
    forall i | 0 <= i < |w.pool.blocks| ensures w.pool.blocks[i].base !in held {
    }
    forall a ensures Holds(u.pool, a) <==> Holds(w.pool, a) && a !in held {
      if i :| 0 <= i < |w.pool.blocks| && w.pool.blocks[i].base == a {
        assert u.pool.blocks[i].base == a;
      }
    }
  }

  // ----- every call keeps everything -----

  lemma AddClient(p: Pool, r: Region)
    requires p.Settled(r)
    ensures p.(clients := p.clients + [r]).Ok()
  {
    var q := p.(clients := p.clients + [r]);
    assert q.BlocksOk() && q.AgesOk();
    assert forall x: Region :: InBlock(q, x) <==> InBlock(p, x);
    hide Pool.BlocksOk, Pool.AgesOk, InBlock;
  }

  lemma AddNode(p: Pool, r: Region, alloc: int)
    requires p.Settled(r) && r.aligned && r.len == LARGE_NODE
    ensures p.(large := [Large(r, alloc)] + p.large).Ok()
  {
    var q := p.(large := [Large(r, alloc)] + p.large);
    assert q.BlocksOk() && q.AgesOk();
    assert forall x: Region :: InBlock(q, x) <==> InBlock(p, x);
    hide Pool.BlocksOk, Pool.AgesOk, InBlock;
    assert forall j | 0 < j < |q.large| :: q.large[j] == p.large[j - 1];
  }

  lemma SmallKeeps(w: World, size: int, align: bool, choice: int)
    requires w.Good() && 0 <= size <= w.pool.max
    ensures Small(w, size, align, choice).world.Good()
  {
    var c := CarveSmall(w, size, align, choice);
    CarveKeeps(w, size, align, choice);
    CarveConserves(w, size, align, choice);
    if c.Carved? {
      AddClient(c.world.pool, c.region);
      var u := c.world.(pool := c.world.pool.(clients := c.world.pool.clients + [c.region]));
      assert u.Conserved() by {
        forall a ensures Holds(u.pool, a) <==> Holds(c.world.pool, a) {
          SameHolds(c.world.pool, u.pool, a);
        }
      }
    }
  }

  /** Carving the node does not depend on what else is live outside the pool. */
  lemma AttachShape(w: World, size: int, a: int, choice: int)
    requires 0 <= w.pool.cur < |w.pool.blocks|
    ensures var c := CarveSmall(Pending(w, a, size), LARGE_NODE, true, choice);
      Attach(w, size, a, choice) ==
        if c.Full? then Outcome(w, 0) else Outcome(PushLarge(c.world, c.region, a).(other := w.other), a)
  {
    var c := CarveSmall(Pending(w, a, size), LARGE_NODE, true, choice);
    var d := CarveSmall(w.(live := w.live[a := size]), LARGE_NODE, true, choice);
    if c.Carved? {
      assert d == Carved(c.world.(other := w.other), c.region);
    }
  }

  lemma AttachKeepsPool(w: World, size: int, a: int, choice: int)
    requires w.Good() && CanPlace(w.live, a, size)
    ensures Attach(w, size, a, choice).world.pool.Ok()
  {
    var p := Pending(w, a, size);
    PendingConserved(w, a, size);
    AttachShape(w, size, a, choice);
    var c := CarveSmall(p, LARGE_NODE, true, choice);
    CarveKeeps(p, LARGE_NODE, true, choice);
    if c.Carved? {
      AddNode(c.world.pool, c.region, a);
    }
  }

  lemma AttachConserves(w: World, size: int, a: int, choice: int)
    requires w.Good() && CanPlace(w.live, a, size)
    ensures Attach(w, size, a, choice).world.Conserved()
  {
    var p := Pending(w, a, size);
    PendingConserved(w, a, size);
    AttachShape(w, size, a, choice);
    var c := CarveSmall(p, LARGE_NODE, true, choice);
    CarveConserves(p, LARGE_NODE, true, choice);
    if c.Carved? {
      assert p.other - {a} == w.other;
      PushConserves(c.world, c.region, a, w.other);
    }
  }

  lemma AttachKeeps(w: World, size: int, a: int, choice: int)
    requires w.Good() && CanPlace(w.live, a, size)
    ensures Attach(w, size, a, choice).world.Good()
  {
    AttachKeepsPool(w, size, a, choice);
    AttachConserves(w, size, a, choice);
  }

  lemma LargeKeeps(w: World, size: int, choice1: int, choice2: int)
    requires w.Good()
    ensures LargeAlloc(w, size, choice1, choice2).world.Good()
  {
    var a := Malloc(w.live, size, choice1);
    var j := Slot(w.pool.large, 0);
    if a != 0 {
      if j < |w.pool.large| {
        SetAllocConserves(w, j, a, size);
        SetAllocKeepsPool(w, j, a);
      } else {
        AttachKeeps(w, size, a, choice2);
      }
    }
  }

  lemma SetAllocKeepsPool(w: World, j: int, a: int)
    requires w.pool.Ok() && 0 <= j < |w.pool.large|
    ensures SetAlloc(w, j, a).pool.Ok()
  {
    var q := SetAlloc(w, j, a).pool;
    assert forall k | 0 <= k < |q.large| :: q.large[k].node == w.pool.large[k].node;
  }

  lemma ResetKeeps(w: World)
    requires w.Good()
    ensures Reset(w).Good()
  {
    ResetConserves(w);
  }
}
