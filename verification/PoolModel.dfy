/** The pool as a value: its chain of blocks, the large list and what has been
    carved out of the blocks; and what every pool call does to that value. */
module PoolModel {
  import opened RawMemory

  const POOL_HEADER: int := 56   // sizeof(ngx_pool_t)
  const BLOCK_HEADER: int := 32  // sizeof(ngx_pool_data_t)
  const LARGE_NODE: int := 16    // sizeof(ngx_pool_large_t)
  const MIN_POOL_SIZE: int := 96 // (56 + 2 * 16) rounded up to 16

  datatype Block = Block(base: int, last: int, failed: int)

  /** Bytes carved out of block number blk. `aligned` says that alignment was asked for. */
  datatype Region = Region(start: int, len: int, blk: int, aligned: bool)

  /** A large-list node, itself carved out of a block, and the region it holds (0: none). */
  datatype Large = Large(node: Region, alloc: int)

  datatype Pool = Pool(psize: int, max: int, blocks: seq<Block>, cur: int, large: seq<Large>, clients: seq<Region>) {

    ghost predicate BlocksOk() {
      && MIN_POOL_SIZE <= psize && psize % 8 == 0
      && 0 <= max <= psize - POOL_HEADER
      && (forall i | 0 <= i < |blocks| ::
            var b := blocks[i];
            && 0 < b.base && b.base % 16 == 0 && b.base + psize < ADDRESS_SPACE
            && b.base + Header(i) <= b.last <= b.base + psize)
      && forall i, j | 0 <= i < j < |blocks| :: Apart(blocks[i].base, psize, blocks[j].base, psize)
    }

    /** `failed` never grows along the chain; it is 6 before `current` and at most 5 from there on. */
    ghost predicate AgesOk() {
      && 0 <= cur < |blocks|
      && (forall i | 0 <= i < cur :: blocks[i].failed == 6)
      && (forall i | cur <= i < |blocks| :: 0 <= blocks[i].failed <= 5)
      && blocks[|blocks| - 1].failed == 0
      && forall i, j | 0 <= i < j < |blocks| :: blocks[i].failed >= blocks[j].failed
    }

    /** Client regions and list nodes lie each inside one block and meet nowhere. */
    ghost predicate RegionsOk() {
      && (forall c | 0 <= c < |clients| :: InBlock(this, clients[c]))
      && (forall j | 0 <= j < |large| ::
            InBlock(this, large[j].node) && large[j].node.aligned && large[j].node.len == LARGE_NODE)
      && (forall c, d | 0 <= c < d < |clients| :: Disjoint(clients[c], clients[d]))
      && (forall j, k | 0 <= j < k < |large| :: Disjoint(large[j].node, large[k].node))
      && forall c, j | 0 <= c < |clients| && 0 <= j < |large| :: Disjoint(clients[c], large[j].node)
    }

    // Here and below a long conjunction is put as membership in a set, which
    // the verifier carries along as one fact.
    ghost predicate Ok() {
      this in iset p: Pool | p.BlocksOk() && p.AgesOk() && p.RegionsOk()
    }

    /** The region meets nothing that was carved before. */
    ghost predicate Clear(r: Region) {
      && (forall c | 0 <= c < |clients| :: Disjoint(clients[c], r))
      && forall j | 0 <= j < |large| :: Disjoint(large[j].node, r)
    }

    ghost predicate Settled(r: Region) {
      this in iset p: Pool | p.Ok() && InBlock(p, r) && p.Clear(r)
    }
  }

  /** `other` is what was live before the pool was created. */
  datatype World = World(pool: Pool, live: map<int, int>, other: map<int, int>) {

    ghost predicate ChainLive() {
      && LiveApart(live)
      && forall i | 0 <= i < |pool.blocks| :: pool.blocks[i].base in live && live[pool.blocks[i].base] == pool.psize
    }

    /** What is live is what was live before and what the pool holds, each region held once. */
    ghost predicate Conserved() {
      && LiveApart(live)
      && (forall a :: a in live <==> a in other || Holds(pool, a))
      && (forall a | a in other :: !Holds(pool, a) && live[a] == other[a])
      && (forall i | 0 <= i < |pool.blocks| :: live[pool.blocks[i].base] == pool.psize)
      && (forall i, j | 0 <= i < |pool.blocks| && 0 <= j < |pool.large| ::
            pool.blocks[i].base != pool.large[j].alloc)
      && forall j, k | 0 <= j < k < |pool.large| && pool.large[j].alloc != 0 ::
           pool.large[j].alloc != pool.large[k].alloc
    }

    /** What every reachable pool is like. */
    ghost predicate Good() {
      this in iset w: World | w.pool.Ok() && w.Conserved()
    }
  }

  datatype Carved = Full | Carved(world: World, region: Region)
  datatype Outcome = Outcome(world: World, addr: int)

  // ----- what the calls do -----

  function Min(a: int, b: int): int { if a < b then a else b }

  function Header(i: int): int { if i == 0 then POOL_HEADER else BLOCK_HEADER }

  /** Where an allocation from the block would start. */
  function Start(b: Block, align: bool): int {
    if align then (b.last + 7) / 8 * 8 else b.last
  }

  predicate HasRoom(p: Pool, i: int, size: int, align: bool)
    requires 0 <= i < |p.blocks|
  {
    Start(p.blocks[i], align) + size <= p.blocks[i].base + p.psize
  }

  /** The first block from i on with room, or the number of blocks. */
  function Fit(p: Pool, i: int, size: int, align: bool): (k: int)
    requires 0 <= i <= |p.blocks|
    ensures i <= k <= |p.blocks|
    ensures k < |p.blocks| ==> HasRoom(p, k, size, align)
    ensures forall j | i <= j < k :: !HasRoom(p, j, size, align)
    decreases |p.blocks| - i
  {
    if i == |p.blocks| then i
    else if HasRoom(p, i, size, align) then i
    else Fit(p, i + 1, size, align)
  }

  /** The walk that ages the blocks from i to the last but one. */
  function Age(p: Pool, i: int): (q: Pool)
    requires 0 <= i < |p.blocks|
    decreases |p.blocks| - i
  {
    if i + 1 == |p.blocks| then p
    else
      var f := p.blocks[i].failed;
      Age(p.(blocks := p.blocks[i := p.blocks[i].(failed := f + 1)],
             cur := if f > 4 then i + 1 else p.cur), i + 1)
  }

  function Bump(p: Pool, i: int, last: int): Pool
    requires 0 <= i < |p.blocks|
  {
    p.(blocks := p.blocks[i := p.blocks[i].(last := last)])
  }

  function AddBlock(w: World, size: int, align: bool, choice: int): Carved
    requires 0 <= w.pool.cur < |w.pool.blocks|
  {
    var m := Malloc(w.live, w.pool.psize, choice);
    if m == 0 then Full
    else
      var q := Age(w.pool, w.pool.cur);
      var r := Region(m + BLOCK_HEADER, size, |q.blocks|, align);
      Carved(w.(pool := q.(blocks := q.blocks + [Block(m, r.start + size, 0)]), live := w.live[m := w.pool.psize]), r)
  }

  function CarveSmall(w: World, size: int, align: bool, choice: int): Carved
    requires 0 <= w.pool.cur < |w.pool.blocks|
  {
    var i := Fit(w.pool, w.pool.cur, size, align);
    if i < |w.pool.blocks| then
      var m := Start(w.pool.blocks[i], align);
      Carved(w.(pool := Bump(w.pool, i, m + size)), Region(m, size, i, align))
    else
      AddBlock(w, size, align, choice)
  }

  function PushLarge(w: World, node: Region, alloc: int): World {
    w.(pool := w.pool.(large := [Large(node, alloc)] + w.pool.large))
  }

  function SetAlloc(w: World, j: int, alloc: int): World
    requires 0 <= j < |w.pool.large|
  {
    w.(pool := w.pool.(large := w.pool.large[j := w.pool.large[j].(alloc := alloc)]))
  }

  /** The first empty slot among the first five nodes from j on, or the length of the list. */
  function Slot(large: seq<Large>, j: int): (k: int)
    requires 0 <= j <= |large|
    ensures j <= k <= |large|
    ensures k < |large| ==> k <= 4 && large[k].alloc == 0
    ensures forall i | j <= i < k && i <= 4 :: large[i].alloc != 0
    decreases |large| - j
  {
    if j == |large| || j > 4 then |large|
    else if large[j].alloc == 0 then j
    else Slot(large, j + 1)
  }

  function Holding(large: seq<Large>, a: int, j: int): (k: int)
    requires 0 <= j <= |large|
    ensures j <= k <= |large|
    ensures k < |large| ==> large[k].alloc == a
    ensures forall i | j <= i < k :: large[i].alloc != a
    decreases |large| - j
  {
    if j == |large| || large[j].alloc == a then j else Holding(large, a, j + 1)
  }

  function Small(w: World, size: int, align: bool, choice: int): Outcome
    requires 0 <= w.pool.cur < |w.pool.blocks|
  {
    match CarveSmall(w, size, align, choice)
    case Full => Outcome(w, 0)
    case Carved(v, r) => Outcome(v.(pool := v.pool.(clients := v.pool.clients + [r])), r.start)
  }

  /** Give the region at `alloc`, just got from malloc, a new node at the head of the large list. */
  function Attach(w: World, size: int, alloc: int, choice: int): Outcome
    requires 0 <= w.pool.cur < |w.pool.blocks|
  {
    match CarveSmall(w.(live := w.live[alloc := size]), LARGE_NODE, true, choice)
    case Full => Outcome(w, 0)
    case Carved(v, r) => Outcome(PushLarge(v, r, alloc), alloc)
  }

  function LargeAlloc(w: World, size: int, choice1: int, choice2: int): Outcome
    requires 0 <= w.pool.cur < |w.pool.blocks|
  {
    var a := Malloc(w.live, size, choice1);
    var j := Slot(w.pool.large, 0);
    if a == 0 then Outcome(w, 0)
    else if j < |w.pool.large| then Outcome(SetAlloc(w.(live := w.live[a := size]), j, a), a)
    else Attach(w, size, a, choice2)
  }

  function Memalign(w: World, size: int, choice1: int, choice2: int): Outcome
    requires 0 <= w.pool.cur < |w.pool.blocks|
  {
    var a := Malloc(w.live, size, choice1);
    if a == 0 then Outcome(w, 0) else Attach(w, size, a, choice2)
  }

  function Palloc(w: World, size: int, align: bool, choice1: int, choice2: int): Outcome
    requires 0 <= w.pool.cur < |w.pool.blocks|
  {
    if size <= w.pool.max then Small(w, size, align, choice1) else LargeAlloc(w, size, choice1, choice2)
  }

  const NGX_OK: int := 0
  const NGX_DECLINED: int := -5

  function Pfree(w: World, a: int): Outcome {
    var j := Holding(w.pool.large, a, 0);
    if j == |w.pool.large| then Outcome(w, NGX_DECLINED)
    else Outcome(SetAlloc(w, j, 0).(live := w.live - {a}), NGX_OK)
  }

  function Allocs(large: seq<Large>): set<int> {
    set l | l in large && l.alloc != 0 :: l.alloc
  }

  function Rewound(blocks: seq<Block>): (r: seq<Block>)
    ensures |r| == |blocks|
    ensures forall i | 0 <= i < |r| :: r[i] == Block(blocks[i].base, blocks[i].base + POOL_HEADER, 0)
  {
    seq(|blocks|, i requires 0 <= i < |blocks| => Block(blocks[i].base, blocks[i].base + POOL_HEADER, 0))
  }

  function Reset(w: World): World {
    w.(pool := w.pool.(blocks := Rewound(w.pool.blocks), cur := 0, large := [], clients := []),
       live := w.live - Allocs(w.pool.large))
  }

  /** NGX_MAX_ALLOC_FROM_POOL is `ngx_pagesize - 1`, unsigned. */
  function Created(other: map<int, int>, size: int, pagesize: int, base: int): World {
    World(Pool(size, Min(size - POOL_HEADER, Sub64(pagesize, 1)), [Block(base, base + POOL_HEADER, 0)], 0, [], []),
          other[base := size], other)
  }

  // ----- what every reachable pool is like -----

  predicate Disjoint(r: Region, s: Region) {
    Apart(r.start, r.len, s.start, s.len)
  }

  /** Inside its block, past the header and below `last`. */
  predicate InBlock(p: Pool, r: Region) {
    && 0 <= r.blk < |p.blocks| && 0 <= r.len
    && p.blocks[r.blk].base + Header(r.blk) <= r.start
    && r.start + r.len <= p.blocks[r.blk].last
    && (r.aligned ==> r.start % 8 == 0)
  }

  /** Block of the chain, or region held by a node of the large list. */
  ghost predicate Holds(p: Pool, a: int) {
    || (exists i :: 0 <= i < |p.blocks| && p.blocks[i].base == a)
    || (exists j :: 0 <= j < |p.large| && p.large[j].alloc == a && a != 0)
  }
}
