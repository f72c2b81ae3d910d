/** portable_vsnprintf and its measure-then-fill wrappers as they run, on a buffer in place. */
module BoundedFormat {
  import opened FormatSpec
  import opened FormatProofs
  import opened IsoFormat
  import opened IsoProofs
  import opened Strings

  method ParseFlags(fmt: string, p: nat) returns (fl: Flags, q: nat)
    requires p <= |fmt| && '\0' !in fmt
    ensures (fl, q) == ReadFlags(fmt, p, NO_FLAGS)
  {
    fl, q := NO_FLAGS, p;
    while IsFlag(Peek(fmt, q))
      invariant p <= q <= |fmt| && ReadFlags(fmt, q, fl) == ReadFlags(fmt, p, NO_FLAGS)
      decreases |fmt| - q
    {
      fl := SetFlag(fl, fmt[q]);
      q := q + 1;
    }
  }

  method ParseDigits(fmt: string, p: nat) returns (uj: int, q: nat)
    requires p <= |fmt| && '\0' !in fmt
    ensures (uj, q) == ReadDigits(fmt, p, 0)
  {
    uj, q := 0, p;
    while IsDigit(Peek(fmt, q))
      invariant p <= q <= |fmt| && ReadDigits(fmt, q, uj) == ReadDigits(fmt, p, 0)
      decreases |fmt| - q
    {
      uj := (10 * uj + (fmt[q] - '0') as int) % UINT_MAX1;
      q := q + 1;
    }
  }

  method ParseSpec(fmt: string, p: nat, args: seq<Arg>, k: nat) returns (sp: Spec, q: nat, next: nat)
    requires p <= |fmt| && '\0' !in fmt
    ensures (sp, q, next) == ReadSpec(fmt, p, args, k)
  {
    var fl, width, precision, precise := NO_FLAGS, 0, 0, false;
    next := k;
    fl, q := ParseFlags(fmt, p);
    if Peek(fmt, q) == '*' {
      var j := IntAt(args, next);
      q, next := q + 1, next + 1;
      if j >= 0 {
        width := j;
      } else {
        width := -j;
        fl := fl.(left := true);
      }
    } else {
      width, q := ParseDigits(fmt, q);
    }
    if Peek(fmt, q) == '.' {
      q := q + 1;
      precise := true;
      if Peek(fmt, q) == '*' {
        var j := IntAt(args, next);
        q, next := q + 1, next + 1;
        if j >= 0 {
          precision := j;
        } else {
          precise := false;
        }
      } else {
        precision, q := ParseDigits(fmt, q);
      }
    }
    var modifier := '\0';
    if Peek(fmt, q) == 'h' || Peek(fmt, q) == 'l' {
      modifier := Peek(fmt, q);
      q := q + 1;
      if modifier == 'l' && Peek(fmt, q) == 'l' {
        q := q + 1;
      }
    }
    var (conv, m2) := Synonym(Peek(fmt, q), modifier);
    sp := Spec(fl, width, precise, precision, m2, conv);
  }

  /** `if (str_l < str_m) memcpy or memset(str+str_l, ..., min(n, avail)); str_l += n;` */
  method Emit(str: array<char>, m: int, len: int, c: Chunk) returns (len2: int)
    requires 0 <= len && 0 <= m <= str.Length && c.Len() >= 0
    modifies str
    ensures Paper(str[..], len2) == Write(Paper(old(str[..]), len), m, c)
  {
    var n := c.Len();
    if len < m {
      var avail := m - len;
      var nn := if n > avail then avail else n;
      var i := 0;
      while i < nn
        invariant 0 <= i <= nn
        invariant forall j | 0 <= j < str.Length :: str[j] == if len <= j < len + i then c.At(j - len) else old(str[j])
      {
        str[len + i] := c.At(i);
        i := i + 1;
      }
    }
    len2 := (len + n) % SIZE_MAX1;
    assert str[..] == Write(Paper(old(str[..]), len), m, c).buf;
  }

  method EmitField(str: array<char>, m: int, len: int, f: Field) returns (len2: int)
    requires 0 <= len && 0 <= m <= str.Length && f.Ok()
    modifies str
    ensures Paper(str[..], len2) == WriteAll(Paper(old(str[..]), len), m, Chunks(f))
  {
    ghost var b := Paper(str[..], len);
    var zeros, ind := f.zeros, f.ind;
    if !f.left && f.zeroFill {
      var n := Room(f.width, |f.text| + zeros);
      zeros := (zeros + n) % SIZE_MAX1;
    }
    ghost var left, body, right := LeftPad(f), Body(f.text, f.ind, zeros), RightPad(f);
    assert Chunks(f) == left + body + right;
    WriteConcat(b, m, left + body, right);
    WriteConcat(b, m, left, body);
    hide WriteAll, Write, Chunks;
    WriteNone(b, m);
    len2 := len;
    if !f.left {
      WriteOne(b, m, Fill(if f.zeroFill then '0' else ' ', Room(f.width, |f.text| + zeros)));
      len2 := Emit(str, m, len2, Fill(if f.zeroFill then '0' else ' ', Room(f.width, |f.text| + zeros)));
    }
    assert Paper(str[..], len2) == WriteAll(b, m, left);
    len2 := EmitBody(str, m, len2, f.text, ind, zeros);
    assert Paper(str[..], len2) == WriteAll(b, m, left + body);
    WriteNone(Paper(str[..], len2), m);
    if f.left {
      WriteOne(Paper(str[..], len2), m, Fill(' ', Room(f.width, |f.text| + zeros)));
      len2 := Emit(str, m, len2, Fill(' ', Room(f.width, |f.text| + zeros)));
    }
  }

  method EmitBody(str: array<char>, m: int, len: int, t: string, i: int, zeros: int) returns (len2: int)
    requires 0 <= len && 0 <= m <= str.Length && 0 <= i <= |t| && 0 <= zeros
    modifies str
    ensures Paper(str[..], len2) == WriteAll(Paper(old(str[..]), len), m, Body(t, i, zeros))
  {
    ghost var b := Paper(str[..], len);
    len2 := len;
    var ind := i;
    if zeros <= 0 {
      ind := 0;
      assert t[0..] == t;
      WriteOne(b, m, Copy(t));
    } else {
      WriteThree(b, m, Copy(t[..ind]), Fill('0', zeros), Copy(t[ind..]));
      len2 := Emit(str, m, len2, Copy(t[..ind]));
      len2 := Emit(str, m, len2, Fill('0', zeros));
    }
    len2 := Emit(str, m, len2, Copy(t[ind..]));
  }

  function LeftPad(f: Field): seq<Chunk>
    requires f.Ok()
  {
    if f.left then [] else [Fill(if f.zeroFill then '0' else ' ', Room(f.width, |f.text| + ZerosOf(f)))]
  }

  function RightPad(f: Field): seq<Chunk>
    requires f.Ok()
  {
    if f.left then [Fill(' ', Room(f.width, |f.text| + ZerosOf(f)))] else []
  }

  lemma WriteNone(b: Paper, m: int)
    requires 0 <= b.len && 0 <= m <= |b.buf|
    ensures WriteAll(b, m, []) == b
  {
  }

  lemma WriteOne(b: Paper, m: int, c: Chunk)
    requires 0 <= b.len && 0 <= m <= |b.buf| && c.Len() >= 0
    ensures WriteAll(b, m, [c]) == Write(b, m, c)
  {
    assert [c][1..] == [];
  }

  lemma WriteThree(b: Paper, m: int, c: Chunk, d: Chunk, e: Chunk)
    requires 0 <= b.len && 0 <= m <= |b.buf| && c.Len() >= 0 && d.Len() >= 0 && e.Len() >= 0
    ensures WriteAll(b, m, [c, d, e]) == Write(Write(Write(b, m, c), m, d), m, e)
  {
    assert [c, d, e] == [c] + ([d] + [e]);
    WriteConcat(b, m, [c], [d] + [e]);
    WriteConcat(Write(b, m, c), m, [d], [e]);
    WriteOne(b, m, c);
    WriteOne(Write(b, m, c), m, d);
    WriteOne(Write(Write(b, m, c), m, d), m, e);
  }

  lemma {:induction false} WriteConcat(b: Paper, m: int, c: seq<Chunk>, d: seq<Chunk>)
    requires 0 <= b.len && 0 <= m <= |b.buf|
    requires forall x | x in c + d :: x.Len() >= 0
    ensures forall x | x in c :: x.Len() >= 0
    ensures forall x | x in d :: x.Len() >= 0
    ensures WriteAll(b, m, c + d) == WriteAll(WriteAll(b, m, c), m, d)
    decreases |c|
  {
    assert forall x | x in c :: x in c + d;
    assert forall x | x in d :: x in c + d;
    if c == [] {
      assert c + d == d;
    } else {
      assert (c + d)[1..] == c[1..] + d;
      WriteConcat(Write(b, m, c[0]), m, c[1..], d);
    }
  }

  /** The main loop and the final NUL. */
  method Vsnprintf(str: array<char>, m: int, fmt: string, args: seq<Arg>, text: (char, char, int) -> string) returns (n: int)
    requires 0 <= m <= str.Length && '\0' !in fmt
    modifies str
    ensures (str[..], n) == FormatSpec.Vsnprintf(old(str[..]), m, fmt, args, text)
  {
    var len := Format(str, m, fmt, args, text);
    if m > 0 {
      str[if len <= m - 1 then len else m - 1] := '\0';
    }
    n := ToInt(len);
  }

  method Format(str: array<char>, m: int, fmt: string, args: seq<Arg>, text: (char, char, int) -> string) returns (len: int)
    requires 0 <= m <= str.Length && '\0' !in fmt
    modifies str
    ensures Paper(str[..], len) == WriteItems(Paper(old(str[..]), 0), m, Items(fmt, 0, args, 0, text))
  {
    hide Items, WriteItems, WriteAll, Write, ReadSpec, ReadField, Chunks;
    ghost var b := Paper(str[..], 0);
    len := 0;
    var p, k: nat := 0, 0;
    while p < |fmt|
      invariant 0 <= p <= |fmt| && 0 <= len
      invariant WriteItems(Paper(str[..], len), m, Items(fmt, p, args, k, text)) == WriteItems(b, m, Items(fmt, 0, args, 0, text))
      decreases |fmt| - p
    {
      ghost var here := Paper(str[..], len);
      if fmt[p] != '%' {
        var q := NextPercent(fmt, p + 1);
        LiteralStep(here, m, fmt, p, q, args, k, text);
        len := Emit(str, m, len, Copy(fmt[p..q]));
        p := q;
      } else {
        FieldStep(here, m, fmt, p, args, k, text);
        var sp, p1, k1 := ParseSpec(fmt, p + 1, args, k);
        var (f, k2) := ReadField(fmt, p1, sp, args, k1, text);
        len := EmitField(str, m, len, f);
        p := if p1 < |fmt| then p1 + 1 else p1;
        k := k2;
      }
    }
    EndStep(Paper(str[..], len), m, fmt, args, k, text);
  }

  lemma EndStep(b: Paper, m: int, fmt: string, args: seq<Arg>, k: nat, text: (char, char, int) -> string)
    requires 0 <= b.len && 0 <= m <= |b.buf|
    ensures WriteItems(b, m, Items(fmt, |fmt|, args, k, text)) == b
  {
  }

  lemma LiteralStep(b: Paper, m: int, fmt: string, p: nat, q: nat, args: seq<Arg>, k: nat, text: (char, char, int) -> string)
    requires 0 <= b.len && 0 <= m <= |b.buf| && p < |fmt| && fmt[p] != '%' && q == NextPercent(fmt, p + 1)
    ensures WriteItems(b, m, Items(fmt, p, args, k, text)) == WriteItems(Write(b, m, Copy(fmt[p..q])), m, Items(fmt, q, args, k, text))
  {
    assert NextPercent(fmt, p) == q;
    WriteOne(b, m, Copy(fmt[p..q]));
  }

  lemma FieldStep(b: Paper, m: int, fmt: string, p: nat, args: seq<Arg>, k: nat, text: (char, char, int) -> string)
    requires 0 <= b.len && 0 <= m <= |b.buf| && p < |fmt| && fmt[p] == '%'
    ensures var (sp, p1, k1) := ReadSpec(fmt, p + 1, args, k); var (f, k2) := ReadField(fmt, p1, sp, args, k1, text);
      WriteItems(b, m, Items(fmt, p, args, k, text)) ==
        WriteItems(WriteAll(b, m, Chunks(f)), m, Items(fmt, if p1 < |fmt| then p1 + 1 else p1, args, k2, text))
  {
    hide ReadSpec, ReadField, Chunks;
  }

  /** What the formatter leaves in a buffer of that size, whatever was in it. */
  ghost predicate Formatted(s: string, fmt: string, args: seq<Arg>, text: (char, char, int) -> string) {
    exists b: string :: |b| == |s| && s == FormatSpec.Vsnprintf(b, |b|, fmt, args, text).0
  }

  /** What the formatter returns, whatever the buffer. */
  ghost predicate Measured(n: int, fmt: string, args: seq<Arg>, text: (char, char, int) -> string) {
    forall buf: string :: n == FormatSpec.Vsnprintf(buf, |buf|, fmt, args, text).1
  }

  lemma FormattedIs(b: string, fmt: string, args: seq<Arg>, text: (char, char, int) -> string)
    ensures Formatted(FormatSpec.Vsnprintf(b, |b|, fmt, args, text).0, fmt, args, text)
  {
  }

  /** asprintf and vasprintf: measure with no buffer, then fill one of that size.
      A length above INT_MAX makes the measured int negative, where the source
      asserts; `granted` says whether malloc succeeds. */
  method Asprintf(fmt: string, args: seq<Arg>, text: (char, char, int) -> string, granted: bool) returns (ptr: array?<char>, n: int)
    requires '\0' !in fmt
    ensures granted ==> Measured(n, fmt, args, text) && (ptr != null <==> n >= 0)
    ensures !granted ==> ptr == null && n < 0
    ensures ptr != null ==> fresh(ptr) && ptr.Length == n + 1 && Formatted(ptr[..], fmt, args, text)
    ensures granted && Faithful(fmt, args, text) && |Iso(fmt, args, text)| < 0x7fff_ffff ==>
      ptr != null && ptr[..] == Iso(fmt, args, text) + "\0"
  {
    hide FormatSpec.Vsnprintf, Iso, Wide, Covered, WellPrinted;
    ptr := null;
    n := Measure(fmt, args, text);
    if n >= 0 {  // otherwise the source's assert(str_l >= 0) stops the program
      if granted {
        ptr := new char[n + 1];
        AsprintfIso(ptr[..], n, fmt, args, text);
        FormattedIs(ptr[..], fmt, args, text);
        var n2 := Vsnprintf(ptr, n + 1, fmt, args, text);
        assert n2 == n;  // the source's own assertion
      } else {
        n := -1;
      }
    }
  }

  method Measure(fmt: string, args: seq<Arg>, text: (char, char, int) -> string) returns (n: int)
    requires '\0' !in fmt
    ensures Measured(n, fmt, args, text)
    ensures Faithful(fmt, args, text) && |Iso(fmt, args, text)| < 0x7fff_ffff ==>
      n == |Iso(fmt, args, text)|
  {
    hide FormatSpec.Vsnprintf, Iso, Wide, Covered, WellPrinted;
    var none := new char[0];
    ghost var b := none[..];
    n := Vsnprintf(none, 0, fmt, args, text);
    forall buf: string ensures n == FormatSpec.Vsnprintf(buf, |buf|, fmt, args, text).1 {
      ReturnIndependent(b, 0, buf, |buf|, fmt, args, text);
    }
    if Faithful(fmt, args, text) && |Iso(fmt, args, text)| < 0x7fff_ffff {
      ReturnExactlyWhenWide(b, 0, fmt, args, text);
    }
  }

  lemma AsprintfIso(buf: string, n: int, fmt: string, args: seq<Arg>, text: (char, char, int) -> string)
    requires |buf| == n + 1 > 0
    ensures Faithful(fmt, args, text) && |Iso(fmt, args, text)| == n < 0x7fff_ffff ==>
      FormatSpec.Vsnprintf(buf, n + 1, fmt, args, text).0 == Iso(fmt, args, text) + "\0"
  {
    hide FormatSpec.Vsnprintf, Iso, Wide, Covered, WellPrinted;
    var iso := Iso(fmt, args, text);
    if Faithful(fmt, args, text) && |iso| == n < 0x7fff_ffff {
      BufferIsIso(buf, n + 1, fmt, args, text);
      var r := FormatSpec.Vsnprintf(buf, n + 1, fmt, args, text).0;
      assert r == r[..n] + [r[n]] && iso[..n] == iso;
    }
  }

  /** As much of the text as has room, and a NUL. */
  predicate CutTo(s: string, whole: string) {
    0 < |s| <= |whole| + 1 && s == whole[..|s| - 1] + "\0"
  }

  lemma AsnprintfIso(buf: string, m: int, fmt: string, args: seq<Arg>, text: (char, char, int) -> string)
    requires |buf| == m > 0
    ensures Faithful(fmt, args, text) && m <= |Iso(fmt, args, text)| + 1 && |Iso(fmt, args, text)| < 0x7fff_ffff ==>
      CutTo(FormatSpec.Vsnprintf(buf, m, fmt, args, text).0, Iso(fmt, args, text))
  {
    hide FormatSpec.Vsnprintf, Iso, Wide, Covered, WellPrinted;
    var iso := Iso(fmt, args, text);
    if Faithful(fmt, args, text) && m <= |iso| + 1 && |iso| < 0x7fff_ffff {
      BufferIsIso(buf, m, fmt, args, text);
      var r := FormatSpec.Vsnprintf(buf, m, fmt, args, text).0;
      assert r == r[..m - 1] + [r[m - 1]];
    }
  }

  /** asnprintf and vasnprintf: the buffer is no larger than str_m; none when that is 0. */
  method Asnprintf(str_m: int, fmt: string, args: seq<Arg>, text: (char, char, int) -> string, granted: bool) returns (ptr: array?<char>, n: int)
    requires '\0' !in fmt && 0 <= str_m < SIZE_MAX1
    ensures granted ==> Measured(n, fmt, args, text) && (ptr != null <==> n >= 0 && str_m > 0)
    ensures !granted ==> ptr == null && (n < 0 || (str_m == 0 && Measured(n, fmt, args, text)))
    ensures ptr != null ==> fresh(ptr) && ptr.Length == (if n + 1 < str_m then n + 1 else str_m) > 0
    ensures ptr != null ==> '\0' in ptr[..] && Formatted(ptr[..], fmt, args, text)
    ensures ptr != null && Faithful(fmt, args, text) && |Iso(fmt, args, text)| < 0x7fff_ffff ==>
      n == |Iso(fmt, args, text)| && CutTo(ptr[..], Iso(fmt, args, text))
  {
    hide FormatSpec.Vsnprintf, Iso, Wide, Covered, WellPrinted;
    ptr := null;
    n := Measure(fmt, args, text);
    if n >= 0 {  // otherwise the source's assert(str_l >= 0) stops the program
      var m := if n + 1 < str_m then n + 1 else str_m;
      if m != 0 {
        if granted {
          ptr := new char[m];
          EndsInside(ptr[..], m, fmt, args, text);
          AsnprintfIso(ptr[..], m, fmt, args, text);
          FormattedIs(ptr[..], fmt, args, text);
          var n2 := Vsnprintf(ptr, m, fmt, args, text);
          assert n2 == n;  // the source's own assertion
        } else {
          n := -1;
        }
      }
    }
  }
}
