/** What holds of every format, every argument list and every buffer size. */
module FormatProofs {
  import opened FormatSpec
  import opened IsoFormat

  ghost predicate ItemsOk(its: seq<Item>) {
    forall it | it in its :: it.Converted? ==> it.f.Ok()
  }

  // ----- lengths -----

  function Total(cs: seq<Chunk>): int {
    if cs == [] then 0 else cs[0].Len() + Total(cs[1..])
  }

  lemma {:induction false} WriteAllLen(b: Paper, m: int, cs: seq<Chunk>)
    requires 0 <= b.len < SIZE_MAX1 && m <= |b.buf| && forall c | c in cs :: c.Len() >= 0
    ensures WriteAll(b, m, cs).len == (b.len + Total(cs)) % SIZE_MAX1
    decreases |cs|
  {
    if cs != [] {
      WriteAllLen(Write(b, m, cs[0]), m, cs[1..]);
      ModAdd(b.len + cs[0].Len(), Total(cs[1..]));
    }
  }

  lemma ModAdd(a: int, b: int)
    ensures (a % SIZE_MAX1 + b) % SIZE_MAX1 == (a + b) % SIZE_MAX1
  {
    var q := a / SIZE_MAX1;
    assert a % SIZE_MAX1 + b == (a + b) - q * SIZE_MAX1;
    ModShift(a + b, -q);
  }

  lemma ModShift(x: int, q: int)
    ensures (x + q * SIZE_MAX1) % SIZE_MAX1 == x % SIZE_MAX1
  {
  }

  lemma {:induction false} TotalConcat(a: seq<Chunk>, b: seq<Chunk>)
    ensures Total(a + b) == Total(a) + Total(b)
    decreases |a|
  {
    if a == [] {
      assert a + b == b;
    } else {
      assert (a + b)[1..] == a[1..] + b;
      TotalConcat(a[1..], b);
    }
  }

  lemma BodyTotal(t: string, ind: int, zeros: int)
    requires 0 <= ind <= |t| && 0 <= zeros
    ensures Total(Body(t, ind, zeros)) == |t| + zeros
  {
    if zeros != 0 {
      Three(Copy(t[..ind]), Fill('0', zeros), Copy(t[ind..]));
    }
  }

  lemma Three(a: Chunk, b: Chunk, c: Chunk)
    requires a.Len() >= 0 && b.Len() >= 0 && c.Len() >= 0
    ensures Total([a, b, c]) == a.Len() + b.Len() + c.Len()
    ensures ExpandAll([a, b, c]) == Expand(a) + Expand(b) + Expand(c)
  {
    assert [a, b, c][1..] == [b, c] && [b, c][1..] == [c];
    assert Total([b, c]) == b.Len() + Total([c]) && Total([c]) == c.Len();
    assert ExpandAll([c]) == Expand(c) && ExpandAll([b, c]) == Expand(b) + ExpandAll([c]);
    assert ExpandAll([a, b, c]) == Expand(a) + ExpandAll([b, c]);
  }

  lemma ChunksTotal(f: Field)
    requires f.Ok()
    ensures Total(Chunks(f)) == |f.text| + ZerosOf(f) + Room(f.width, |f.text| + ZerosOf(f))
  {
    var zeros := ZerosOf(f);
    var pad := Room(f.width, |f.text| + zeros);
    var left := if f.left then [] else [Fill(if f.zeroFill then '0' else ' ', pad)];
    var body := Body(f.text, f.ind, zeros);
    var right := if f.left then [Fill(' ', pad)] else [];
    TotalConcat(left + body, right);
    TotalConcat(left, body);
    BodyTotal(f.text, f.ind, zeros);
    assert Total(left) + Total(right) == pad;
  }

  /** Whatever its contents, a converted field moves the length by its width, modulo 2^64. */
  lemma FieldAdvance(f: Field)
    requires f.Ok()
    ensures Total(Chunks(f)) % SIZE_MAX1 == f.width % SIZE_MAX1
  {
    ChunksTotal(f);
    var len := |f.text| + ZerosOf(f);
    ModAdd(f.width - len, len);
  }

  function ItemAdvance(it: Item): int {
    match it
    case Literal(s) => |s|
    case Converted(f) => f.width
  }

  function Advance(its: seq<Item>): int {
    if its == [] then 0 else ItemAdvance(its[0]) + Advance(its[1..])
  }

  lemma ItemLen(b: Paper, m: int, it: Item)
    requires 0 <= b.len < SIZE_MAX1 && m <= |b.buf| && ItemsOk([it])
    ensures WriteAll(b, m, ItemChunks(it)).len == (b.len + ItemAdvance(it)) % SIZE_MAX1
  {
    assert it in [it];
    var cs := ItemChunks(it);
    WriteAllLen(b, m, cs);
    match it
    case Literal(s) => assert Total([Copy(s)]) == |s|;
    case Converted(f) =>
      FieldAdvance(f);
      ModAdd(Total(cs), b.len);
      ModAdd(f.width, b.len);
  }

  lemma {:induction false} ItemsLen(b: Paper, m: int, its: seq<Item>)
    requires 0 <= b.len < SIZE_MAX1 && m <= |b.buf| && ItemsOk(its)
    ensures WriteItems(b, m, its).len == (b.len + Advance(its)) % SIZE_MAX1
    decreases |its|
  {
    if its != [] {
      var b1 := WriteAll(b, m, ItemChunks(its[0]));
      assert its[0] in its && ItemsOk([its[0]]);
      ItemLen(b, m, its[0]);
      ItemsLen(b1, m, its[1..]);
      ModAdd(b.len + ItemAdvance(its[0]), Advance(its[1..]));
    }
  }

  /** The int returned depends on the format and its arguments only, not on the buffer or its size. */
  lemma ReturnIndependent(buf1: string, m1: int, buf2: string, m2: int, fmt: string, args: seq<Arg>, text: (char, char, int) -> string)
    requires 0 <= m1 <= |buf1| && 0 <= m2 <= |buf2|
    ensures Vsnprintf(buf1, m1, fmt, args, text).1 == Vsnprintf(buf2, m2, fmt, args, text).1
  {
    var its := Items(fmt, 0, args, 0, text);
    ItemsLen(Paper(buf1, 0), m1, its);
    ItemsLen(Paper(buf2, 0), m2, its);
  }

  // ----- where the buffer is written -----

  lemma {:induction false} WriteAllStays(b: Paper, m: int, cs: seq<Chunk>, i: int)
    requires 0 <= b.len && 0 <= m <= i < |b.buf| && forall c | c in cs :: c.Len() >= 0
    ensures WriteAll(b, m, cs).buf[i] == b.buf[i]
    decreases |cs|
  {
    if cs != [] { WriteAllStays(Write(b, m, cs[0]), m, cs[1..], i); }
  }

  lemma {:induction false} WriteItemsStays(b: Paper, m: int, its: seq<Item>, i: int)
    requires 0 <= b.len && 0 <= m <= i < |b.buf| && ItemsOk(its)
    ensures WriteItems(b, m, its).buf[i] == b.buf[i]
    decreases |its|
  {
    if its != [] {
      WriteAllStays(b, m, ItemChunks(its[0]), i);
      WriteItemsStays(WriteAll(b, m, ItemChunks(its[0])), m, its[1..], i);
    }
  }

  /** Nothing at or past str_m is written. */
  lemma WritesInside(buf: string, m: int, fmt: string, args: seq<Arg>, text: (char, char, int) -> string, i: int)
    requires 0 <= m <= i < |buf|
    ensures Vsnprintf(buf, m, fmt, args, text).0[i] == buf[i]
  {
    WriteItemsStays(Paper(buf, 0), m, Items(fmt, 0, args, 0, text), i);
  }

  /** The text ends at the length or, when that is too long, in the last byte. */
  lemma EndsInside(buf: string, m: int, fmt: string, args: seq<Arg>, text: (char, char, int) -> string)
    requires 0 < m <= |buf|
    ensures var len := Advance(Items(fmt, 0, args, 0, text)) % SIZE_MAX1;
      Vsnprintf(buf, m, fmt, args, text).0[if len < m then len else m - 1] == '\0'
  {
    hide Items, WriteItems, Advance;
    ItemsLen(Paper(buf, 0), m, Items(fmt, 0, args, 0, text));
  }

  // ----- a larger buffer -----

  ghost predicate Agree(b: Paper, c: Paper, m: int)
    requires m <= |b.buf| && m <= |c.buf|
  {
    b.len == c.len && forall i | 0 <= i < m :: b.buf[i] == c.buf[i]
  }

  lemma {:induction false} WriteAllAgrees(b: Paper, m1: int, c: Paper, m2: int, cs: seq<Chunk>)
    requires 0 <= b.len && 0 <= m1 <= m2 && m1 <= |b.buf| && m2 <= |c.buf| && Agree(b, c, m1)
    requires forall x | x in cs :: x.Len() >= 0
    ensures Agree(WriteAll(b, m1, cs), WriteAll(c, m2, cs), m1)
    decreases |cs|
  {
    if cs != [] { WriteAllAgrees(Write(b, m1, cs[0]), m1, Write(c, m2, cs[0]), m2, cs[1..]); }
  }

  lemma {:induction false} WriteItemsAgrees(b: Paper, m1: int, c: Paper, m2: int, its: seq<Item>)
    requires 0 <= b.len && 0 <= m1 <= m2 && m1 <= |b.buf| && m2 <= |c.buf| && Agree(b, c, m1) && ItemsOk(its)
    ensures Agree(WriteItems(b, m1, its), WriteItems(c, m2, its), m1)
    decreases |its|
  {
    if its != [] {
      var cs := ItemChunks(its[0]);
      WriteAllAgrees(b, m1, c, m2, cs);
      WriteItemsAgrees(WriteAll(b, m1, cs), m1, WriteAll(c, m2, cs), m2, its[1..]);
    }
  }

  /** On buffers that start alike, a shorter limit leaves the same bytes below its last one. */
  lemma ShorterIsPrefix(buf1: string, m1: int, buf2: string, m2: int, fmt: string, args: seq<Arg>, text: (char, char, int) -> string, i: int)
    requires 0 <= m1 <= m2 && m1 <= |buf1| && m2 <= |buf2| && forall j | 0 <= j < m1 :: buf1[j] == buf2[j]
    requires 0 <= i < m1 - 1
    ensures Vsnprintf(buf1, m1, fmt, args, text).0[i] == Vsnprintf(buf2, m2, fmt, args, text).0[i]
  {
    WriteItemsAgrees(Paper(buf1, 0), m1, Paper(buf2, 0), m2, Items(fmt, 0, args, 0, text));
  }

  // ----- fields wide enough -----

  function Expand(c: Chunk): string
    requires c.Len() >= 0
  {
    match c
    case Copy(s) => s
    case Fill(ch, n) => Repeat(ch, n)
  }

  function ExpandAll(cs: seq<Chunk>): string
    requires forall c | c in cs :: c.Len() >= 0
  {
    if cs == [] then [] else Expand(cs[0]) + ExpandAll(cs[1..])
  }

  /** Without overflow of the length, chunks are written one after the other. */
  lemma {:induction false} WriteAllIsText(b: Paper, m: int, cs: seq<Chunk>)
    requires 0 <= b.len && 0 <= m <= |b.buf| && (forall c | c in cs :: c.Len() >= 0) && cs != []
    requires b.len + Total(cs) < SIZE_MAX1
    ensures WriteAll(b, m, cs) == Write(b, m, Copy(ExpandAll(cs))) && |ExpandAll(cs)| == Total(cs)
    decreases |cs|
  {
    var rest := cs[1..];
    assert ExpandAll(cs) == Expand(cs[0]) + ExpandAll(rest);
    if rest == [] {
      assert ExpandAll(cs) == Expand(cs[0]);
      SameWrite(b, m, cs[0]);
    } else {
      TotalNonneg(rest);
      WriteAllIsText(Write(b, m, cs[0]), m, rest);
      SameWrite(b, m, cs[0]);
      WriteTwice(b, m, Expand(cs[0]), ExpandAll(rest));
    }
  }

  lemma {:induction false} TotalNonneg(cs: seq<Chunk>)
    requires forall c | c in cs :: c.Len() >= 0
    ensures Total(cs) >= 0
    decreases |cs|
  {
    if cs != [] { TotalNonneg(cs[1..]); }
  }

  lemma SameWrite(b: Paper, m: int, c: Chunk)
    requires 0 <= b.len && 0 <= m <= |b.buf| && c.Len() >= 0
    ensures Write(b, m, c) == Write(b, m, Copy(Expand(c)))
  {
    assert Write(b, m, c).buf == Write(b, m, Copy(Expand(c))).buf;
  }

  lemma WriteTwice(b: Paper, m: int, s: string, t: string)
    requires 0 <= b.len && 0 <= m <= |b.buf| && b.len + |s| + |t| < SIZE_MAX1
    ensures Write(Write(b, m, Copy(s)), m, Copy(t)) == Write(b, m, Copy(s + t))
  {
    assert Write(Write(b, m, Copy(s)), m, Copy(t)).buf == Write(b, m, Copy(s + t)).buf;
  }

  lemma BodyText(t: string, ind: int, zeros: int)
    requires 0 <= ind <= |t| && 0 <= zeros
    ensures ExpandAll(Body(t, ind, zeros)) == t[..ind] + Repeat('0', zeros) + t[ind..]
  {
    if zeros == 0 {
      assert t[..ind] + [] + t[ind..] == t;
    } else {
      Three(Copy(t[..ind]), Fill('0', zeros), Copy(t[ind..]));
    }
  }

  /** The size_t subtractions do not wrap when the field is wide enough. */
  lemma RoomIsWidth(f: Field)
    requires f.Ok() && |f.text| + f.zeros <= f.width < SIZE_MAX1
    ensures ZerosOf(f) == if f.zeroFill && !f.left then Max(f.zeros, f.width - |f.text|) else f.zeros
    ensures Room(f.width, |f.text| + ZerosOf(f)) == f.width - |f.text| - ZerosOf(f)
  {
  }

  /** A field wide enough is padded as it should be. */
  lemma FieldIsPadded(f: Field)
    requires f.Ok() && |f.text| + f.zeros <= f.width < SIZE_MAX1
    ensures ExpandAll(Chunks(f)) == PaddedField(f)
  {
    RoomIsWidth(f);
    var zeros := ZerosOf(f);
    ChunksText(f);
    BodyText(f.text, f.ind, zeros);
    hide Room, ZerosOf, Chunks;
    var body := f.text[..f.ind] + Repeat('0', zeros) + f.text[f.ind..];
    assert |body| == |f.text| + zeros;
    assert f.zeroFill && !f.left ==> Repeat('0', f.width - |body|) == Repeat(' ', f.width - |body|);
  }

  lemma ChunksText(f: Field)
    requires f.Ok()
    ensures var zeros := ZerosOf(f); var pad := Room(f.width, |f.text| + zeros); var body := ExpandAll(Body(f.text, f.ind, zeros));
      ExpandAll(Chunks(f)) ==
        if f.left then body + Repeat(' ', pad) else Repeat(if f.zeroFill then '0' else ' ', pad) + body
  {
    hide Room, ZerosOf, Body;
    var zeros := ZerosOf(f);
    var pad := Room(f.width, |f.text| + zeros);
    var body := Body(f.text, f.ind, zeros);
    if f.left {
      assert Chunks(f) == body + [Fill(' ', pad)];
      ExpandConcat(body, [Fill(' ', pad)]);
    } else {
      assert Chunks(f) == [Fill(if f.zeroFill then '0' else ' ', pad)] + body;
      ExpandConcat([Fill(if f.zeroFill then '0' else ' ', pad)], body);
    }
  }

  lemma {:induction false} ExpandConcat(a: seq<Chunk>, b: seq<Chunk>)
    requires forall c | c in a + b :: c.Len() >= 0
    ensures forall c | c in a :: c.Len() >= 0
    ensures forall c | c in b :: c.Len() >= 0
    ensures ExpandAll(a + b) == ExpandAll(a) + ExpandAll(b)
    decreases |a|
  {
    hide Expand, ExpandAll;
    PartsOk(a, b);
    if a == [] {
      NothingExpanded(b);
    } else {
      FirstExpanded(a, b);
      ExpandConcat(a[1..], b);
      var first, middle, last := Expand(a[0]), ExpandAll(a[1..]), ExpandAll(b);
      assert first + (middle + last) == (first + middle) + last;
    }
  }

  lemma PartsOk(a: seq<Chunk>, b: seq<Chunk>)
    requires forall c | c in a + b :: c.Len() >= 0
    ensures (forall c | c in a :: c.Len() >= 0) && forall c | c in b :: c.Len() >= 0
  {
    assert forall c | c in a :: c in a + b;
    assert forall c | c in b :: c in a + b;
  }

  lemma NothingExpanded(b: seq<Chunk>)
    requires forall c | c in b :: c.Len() >= 0
    ensures [] + b == b && ExpandAll([]) + ExpandAll(b) == ExpandAll(b)
  {
  }

  lemma FirstExpanded(a: seq<Chunk>, b: seq<Chunk>)
    requires a != [] && (forall c | c in a :: c.Len() >= 0) && forall c | c in a + b :: c.Len() >= 0
    ensures (a + b)[0] == a[0] && (a + b)[1..] == a[1..] + b
    ensures forall c | c in a[1..] + b :: c.Len() >= 0
    ensures ExpandAll(a) == Expand(a[0]) + ExpandAll(a[1..])
    ensures ExpandAll(a + b) == Expand(a[0]) + ExpandAll(a[1..] + b)
  {
    hide Expand;
    assert (a + b)[1..] == a[1..] + b;
    assert forall c | c in a[1..] + b :: c in a + b;
  }

  predicate AllFit(its: seq<Item>) {
    its == [] || (Fits(its[0]) && AllFit(its[1..]))
  }

  /** The widths add up to the length of the padded text just when all contents fit their fields. */
  lemma {:induction false} AdvanceIsPadded(its: seq<Item>)
    requires ItemsOk(its)
    ensures 0 <= Advance(its) <= |PaddedText(its)|
    ensures Advance(its) == |PaddedText(its)| <==> AllFit(its)
    decreases |its|
  {
    if its != [] {
      assert its[0] in its;
      AdvanceIsPadded(its[1..]);
    }
  }

  lemma ItemIsPadded(b: Paper, m: int, it: Item)
    requires ItemsOk([it]) && Fits(it) && 0 <= b.len && 0 <= m <= |b.buf| && b.len + |PaddedItem(it)| < SIZE_MAX1
    ensures WriteAll(b, m, ItemChunks(it)) == Write(b, m, Copy(PaddedItem(it)))
  {
    assert it in [it];
    match it
    case Literal(s) =>
      assert ExpandAll([Copy(s)]) == s;
      WriteAllIsText(b, m, [Copy(s)]);
    case Converted(f) =>
      FieldIsPadded(f);
      ChunksTotal(f);
      RoomIsWidth(f);
      WriteAllIsText(b, m, Chunks(f));
  }

  lemma WriteNothing(b: Paper, m: int)
    requires 0 <= b.len < SIZE_MAX1 && 0 <= m <= |b.buf|
    ensures Write(b, m, Copy([])) == b
  {
    assert Write(b, m, Copy([])).buf == b.buf;
  }

  lemma {:induction false} ItemsArePadded(b: Paper, m: int, its: seq<Item>)
    requires ItemsOk(its) && AllFit(its) && 0 <= b.len && 0 <= m <= |b.buf| && b.len + |PaddedText(its)| < SIZE_MAX1
    ensures WriteItems(b, m, its) == Write(b, m, Copy(PaddedText(its)))
    decreases |its|
  {
    hide Write, WriteAll, PaddedItem, ItemChunks, Fits;
    if its == [] {
      WriteNothing(b, m);
    } else {
      assert its[0] in its && ItemsOk([its[0]]);
      var s, rest := PaddedItem(its[0]), its[1..];
      ItemIsPadded(b, m, its[0]);
      WrittenLen(b, m, s);
      ItemsArePadded(Write(b, m, Copy(s)), m, rest);
      WriteTwice(b, m, s, PaddedText(rest));
    }
  }

  lemma WrittenLen(b: Paper, m: int, s: string)
    requires 0 <= b.len && 0 <= m <= |b.buf| && b.len + |s| < SIZE_MAX1
    ensures Write(b, m, Copy(s)).len == b.len + |s|
  {
  }

  lemma SmallLen(n: int)
    requires 0 <= n < 0x8000_0000
    ensures n % SIZE_MAX1 == n && ToInt(n) == n
  {
  }

  lemma TerminatedPadded(buf: string, m: int, its: seq<Item>)
    requires ItemsOk(its) && AllFit(its) && 0 < m <= |buf| && |PaddedText(its)| < SIZE_MAX1
    ensures var padded := PaddedText(its); var n := if |padded| < m then |padded| else m - 1;
      var r := Terminate(WriteItems(Paper(buf, 0), m, its), m);
      r[..n] == padded[..n] && r[n] == '\0'
  {
    hide PaddedText, WriteItems, AllFit, ItemsOk;
    ItemsArePadded(Paper(buf, 0), m, its);
  }

  /** A field of text narrower than it eats the bytes before it: the fill floods the
      rest of the buffer, the length wraps back, and the text ends where the width says.
      On the left, the text is written where it should be and the fill follows it. */
  lemma NarrowField(b: Paper, m: int, f: Field)
    requires f.Ok() && f.zeros == 0 && !f.zeroFill && f.width < |f.text|
    requires 0 <= b.len && 0 <= m <= |b.buf| && m + |f.text| < SIZE_MAX1 && b.len + |f.text| < SIZE_MAX1
    ensures var r := WriteAll(b, m, Chunks(f));
      r.len == b.len + f.width && forall i | 0 <= i < |b.buf| :: r.buf[i] == NarrowByte(b, m, f, i)
  {
    hide Write, NarrowByte;
    Wraps(f.width - |f.text|);
    var pad := SIZE_MAX1 + f.width - |f.text|;
    NarrowChunks(f, pad);
    if f.left {
      WriteTwo(b, m, Copy(f.text), Fill(' ', pad));
      NarrowLeft(b, m, f, pad);
    } else {
      WriteTwo(b, m, Fill(' ', pad), Copy(f.text));
      NarrowRight(b, m, f, pad);
    }
  }

  /** What stands at i afterwards. */
  function NarrowByte(b: Paper, m: int, f: Field, i: int): char
    requires 0 <= b.len && 0 <= i < |b.buf| && 0 <= f.width < |f.text|
  {
    var start := if f.left then b.len else b.len + f.width - |f.text|;
    if i >= m then b.buf[i]
    else if 0 <= start <= i < start + |f.text| then f.text[i - start]
    else if b.len <= i then ' '
    else b.buf[i]
  }

  lemma NarrowChunks(f: Field, pad: int)
    requires f.Ok() && f.zeros == 0 && !f.zeroFill && pad == Room(f.width, |f.text|)
    ensures Chunks(f) == if f.left then [Copy(f.text), Fill(' ', pad)] else [Fill(' ', pad), Copy(f.text)]
  {
  }

  lemma NarrowLeft(b: Paper, m: int, f: Field, pad: int)
    requires f.left && 0 <= f.width < |f.text| && pad == SIZE_MAX1 + f.width - |f.text|
    requires 0 <= b.len && 0 <= m <= |b.buf| && m + |f.text| < SIZE_MAX1 && b.len + |f.text| < SIZE_MAX1
    ensures var r := Write(Write(b, m, Copy(f.text)), m, Fill(' ', pad));
      r.len == b.len + f.width && forall i | 0 <= i < |b.buf| :: r.buf[i] == NarrowByte(b, m, f, i)
  {
    var c := Write(b, m, Copy(f.text));
    NotWrapped(b.len + |f.text|);
    assert c.len == b.len + |f.text|;
    Lands(c.len, pad, b.len + f.width);
    hide Write;
  }

  lemma NarrowRight(b: Paper, m: int, f: Field, pad: int)
    requires !f.left && 0 <= f.width < |f.text| && pad == SIZE_MAX1 + f.width - |f.text|
    requires 0 <= b.len && 0 <= m <= |b.buf| && m + |f.text| < SIZE_MAX1 && b.len + |f.text| < SIZE_MAX1
    ensures var r := Write(Write(b, m, Fill(' ', pad)), m, Copy(f.text));
      r.len == b.len + f.width && forall i | 0 <= i < |b.buf| :: r.buf[i] == NarrowByte(b, m, f, i)
  {
    var start := b.len + f.width - |f.text|;
    var c := Write(b, m, Fill(' ', pad));
    Lands(b.len, pad, start);
    assert c.len == if start >= 0 then start else start + SIZE_MAX1;
    var r := Write(c, m, Copy(f.text));
    LandsAgain(c.len, |f.text|, b.len + f.width);
    hide Write;
  }

  lemma NotWrapped(n: int)
    requires 0 <= n < SIZE_MAX1
    ensures n % SIZE_MAX1 == n
  {
  }

  lemma LandsAgain(len: int, more: int, at: int)
    requires 0 <= at < SIZE_MAX1 && (len + more == at || len + more == at + SIZE_MAX1)
    ensures (len + more) % SIZE_MAX1 == at
  {
  }

  lemma Wraps(n: int)
    requires -SIZE_MAX1 < n < 0
    ensures n % SIZE_MAX1 == n + SIZE_MAX1
  {
  }

  lemma Lands(len: int, pad: int, at: int)
    requires 0 <= len < SIZE_MAX1 && 0 < pad < SIZE_MAX1 && at == len + pad - SIZE_MAX1 && at < SIZE_MAX1
    ensures (len + pad) % SIZE_MAX1 == if at >= 0 then at else at + SIZE_MAX1
  {
  }

  lemma WriteTwo(b: Paper, m: int, c: Chunk, d: Chunk)
    requires 0 <= b.len && m <= |b.buf| && c.Len() >= 0 && d.Len() >= 0
    ensures WriteAll(b, m, [c, d]) == Write(Write(b, m, c), m, d)
  {
    assert [c, d][1..] == [d] && [d][1..] == [];
    assert WriteAll(b, m, [c, d]) == WriteAll(Write(b, m, c), m, [d]);
    assert WriteAll(Write(b, m, c), m, [d]) == WriteAll(Write(Write(b, m, c), m, d), m, []);
  }

  // ----- what a converted number consists of -----

  /** The sign or base mark before the digits. */
  function MarkOf(sp: Spec, n: int): string {
    if sp.conv == 'd' then
      if n < 0 then "-" else if sp.fl.sign then if sp.fl.space then " " else "+" else ""
    else if sp.fl.alt && n != 0 && (sp.conv == 'x' || sp.conv == 'X') then ['0', sp.conv]
    else ""
  }

  lemma MarkedText(sp: Spec, n: int, t: string, digits: string)
    requires PlainDigits(digits) && IsNumeric(sp.conv)
    requires t == Prefix(sp, n) + (if sp.conv == 'd' && n < 0 then "-" else "") + digits
    ensures var ind := SkipSign(t, |Prefix(sp, n)|); t[..ind] == MarkOf(sp, n) && t[ind..] == digits
  {
    var prefix := Prefix(sp, n);
    var minus := if sp.conv == 'd' && n < 0 then "-" else "";
    var k := |prefix| + |minus|;
    assert t[k..] == digits && t[..k] == prefix + minus;
    assert t[k] == digits[0] && (k + 1 < |t| ==> t[k + 1] == digits[1]);
  }

  lemma NumberText(sp: Spec, n: int, text: (char, char, int) -> string, digits: string)
    requires IsNumeric(sp.conv) && sp.conv != 'p' && 0 <= sp.width && PlainDigits(digits)
    requires text(sp.conv, sp.modifier, n) == (if sp.conv == 'd' && n < 0 then "-" else "") + digits
    ensures var f := NumberField(sp, n, text);
      var prec := if sp.precise then sp.prec else 1;
      && f.text[..f.ind] == MarkOf(sp, n) && f.text[f.ind..] == if prec == 0 && n == 0 then "" else digits
  {
    hide SkipSign, PlainDigits, MarkOf, Prefix;
    var prec := if sp.precise then sp.prec else 1;
    var prefix := Prefix(sp, n);
    if prec == 0 && n == 0 {
      MarkOfZero(sp);
      assert prefix[..|prefix|] == prefix && prefix[|prefix|..] == "";
    } else {
      var t := prefix + text(sp.conv, sp.modifier, n);
      assert t == prefix + (if sp.conv == 'd' && n < 0 then "-" else "") + digits;
      MarkedText(sp, n, t, digits);
    }
  }

  /** The zeros, from what stands at the place where they go in. */
  lemma NumberZeros(sp: Spec, n: int, text: (char, char, int) -> string)
    requires 0 <= sp.width
    ensures var f := NumberField(sp, n, text);
      var prec := if sp.precise then sp.prec else 1;
      var shown := f.text[f.ind..];
      var least := if sp.conv == 'o' && sp.fl.alt && !(|shown| > 0 && shown[0] == '0') then Max(prec, |shown| + 1) else prec;
      && f.zeros + |shown| == Max(least, |shown|)
      && f.zeroFill == (sp.fl.zero && !sp.precise) && f.left == sp.fl.left && f.width == sp.width
  {
    hide SkipSign, Prefix;
    var f := NumberField(sp, n, text);
    assert f.ind < |f.text| ==> f.text[f.ind..][0] == f.text[f.ind];
  }

  /** Mark, zeros, digits: the precision is the least number of digits, and the
      alternate octal form puts one zero more only when no zero leads already. */
  lemma NumberParts(sp: Spec, n: int, text: (char, char, int) -> string, digits: string)
    requires IsNumeric(sp.conv) && sp.conv != 'p' && 0 <= sp.width && PlainDigits(digits)
    requires text(sp.conv, sp.modifier, n) == (if sp.conv == 'd' && n < 0 then "-" else "") + digits
    ensures var f := NumberField(sp, n, text);
      var prec := if sp.precise then sp.prec else 1;
      var shown := if prec == 0 && n == 0 then "" else digits;
      var least := if sp.conv == 'o' && sp.fl.alt && !(|shown| > 0 && shown[0] == '0') then Max(prec, |shown| + 1) else prec;
      && f.text[..f.ind] == MarkOf(sp, n) && f.text[f.ind..] == shown
      && f.zeros + |shown| == Max(least, |shown|)
      && f.zeroFill == (sp.fl.zero && !sp.precise) && f.left == sp.fl.left && f.width == sp.width
  {
    hide NumberField, PlainDigits, MarkOf;
    NumberText(sp, n, text, digits);
    NumberZeros(sp, n, text);
  }

  lemma MarkOfZero(sp: Spec)
    requires IsNumeric(sp.conv)
    ensures Prefix(sp, 0) == MarkOf(sp, 0)
  {
  }
}
