/** What portable_vsnprintf writes, apart from where its buffer ends: a format
    string and its arguments give a list of chunks, each a run of bytes to copy
    or a byte to repeat; and the text the same fields give when padding does not wrap. */
module FormatSpec {
  import opened Strings

  const SIZE_MAX1: int := 0x1_0000_0000_0000_0000  // size_t arithmetic is modulo this
  const UINT_MAX1: int := 0x1_0000_0000

  /** What va_arg can fetch: a number (an int, a long or a pointer), or a string that is perhaps NULL. */
  datatype Arg = Num(n: int) | Str(s: string) | NullStr

  datatype Flags = Flags(zero: bool, left: bool, sign: bool, space: bool, alt: bool)

  /** A parsed conversion specification. */
  datatype Spec = Spec(fl: Flags, width: int, precise: bool, prec: int, modifier: char, conv: char)

  /** The parts of one converted argument. Zeros go in before text[ind];
      zeroFill asks for zeros up to the field width too. */
  datatype Field = Field(text: string, ind: int, zeros: int, zeroFill: bool, left: bool, width: int) {
    predicate Ok() {
      0 <= ind <= |text| && 0 <= zeros && 0 <= width
    }
  }

  datatype Chunk = Copy(s: string) | Fill(c: char, n: int) {
    function Len(): int {
      match this
      case Copy(s) => |s|
      case Fill(_, n) => n
    }

    function At(i: int): char
      requires 0 <= i < Len()
    {
      match this
      case Copy(s) => s[i]
      case Fill(c, _) => c
    }
  }

  function Max(a: int, b: int): int { if a < b then b else a }

  // ----- arguments -----

  function IntAt(args: seq<Arg>, k: nat): int {
    if k < |args| && args[k].Num? then args[k].n else 0
  }

  function StrAt(args: seq<Arg>, k: nat): Arg {
    if k < |args| && args[k].Str? then args[k] else NullStr
  }

  // ----- reading the format -----

  /** The byte at p; the terminating NUL past the end. */
  function Peek(fmt: string, p: nat): char {
    if p < |fmt| then fmt[p] else '\0'
  }

  predicate IsFlag(c: char) {
    c == '0' || c == '-' || c == '+' || c == ' ' || c == '#' || c == '\''
  }

  function SetFlag(fl: Flags, c: char): Flags {
    match c
    case '0' => fl.(zero := true)
    case '-' => fl.(left := true)
    case '+' => fl.(sign := true, space := false)
    case ' ' => fl.(sign := true)
    case '#' => fl.(alt := true)
    case _ => fl
  }

  const NO_FLAGS := Flags(false, false, false, true, false)

  /** The flags from p on, and the index after them. */
  function ReadFlags(fmt: string, p: nat, fl: Flags): (r: (Flags, nat))
    ensures r.1 >= p && (p <= |fmt| ==> r.1 <= |fmt|)
    decreases |fmt| - p
  {
    if p < |fmt| && IsFlag(fmt[p]) then ReadFlags(fmt, p + 1, SetFlag(fl, fmt[p])) else (fl, p)
  }

  /** The digits from p on, accumulated in an unsigned int. */
  function ReadDigits(fmt: string, p: nat, acc: int): (r: (int, nat))
    ensures r.1 >= p && (p <= |fmt| ==> r.1 <= |fmt|)
    ensures 0 <= acc < UINT_MAX1 ==> 0 <= r.0 < UINT_MAX1
    decreases |fmt| - p
  {
    if p < |fmt| && IsDigit(fmt[p]) then ReadDigits(fmt, p + 1, (10 * acc + (fmt[p] - '0') as int) % UINT_MAX1)
    else (acc, p)
  }

  /** A '*' or a run of digits: its value, whether it came from a '*', the next index and argument. */
  function ReadCount(fmt: string, p: nat, args: seq<Arg>, k: nat): (r: (int, nat, nat))
    ensures r.1 >= p && (p <= |fmt| ==> r.1 <= |fmt|)
  {
    if Peek(fmt, p) == '*' then (IntAt(args, k), p + 1, k + 1)
    else var d := ReadDigits(fmt, p, 0); (d.0, d.1, k)
  }

  /** The length modifier: h, l, or ll taken as l. */
  function ReadModifier(fmt: string, p: nat): (r: (char, nat))
    ensures r.1 >= p && (p <= |fmt| ==> r.1 <= |fmt|)
  {
    var c := Peek(fmt, p);
    if c == 'h' then (c, p + 1)
    else if c == 'l' then (c, if Peek(fmt, p + 1) == 'l' then p + 2 else p + 1)
    else ('\0', p)
  }

  /** D, U, O and i stand for others. */
  function Synonym(c: char, modifier: char): (char, char) {
    match c
    case 'i' => ('d', modifier)
    case 'D' => ('d', 'l')
    case 'U' => ('u', 'l')
    case 'O' => ('o', 'l')
    case _ => (c, modifier)
  }

  /** A specification from p, just past its '%': the index is that of the
      conversion character, the other number the next argument to fetch. */
  function ReadSpec(fmt: string, p: nat, args: seq<Arg>, k: nat): (r: (Spec, nat, nat))
    requires p <= |fmt|
    ensures p <= r.1 <= |fmt| && 0 <= r.0.width
  {
    var (fl, p1) := ReadFlags(fmt, p, NO_FLAGS);
    var (w, p2, k2) := ReadCount(fmt, p1, args, k);
    var fl2 := if w < 0 then fl.(left := true) else fl;
    var width := if w < 0 then -w else w;
    var dot := Peek(fmt, p2) == '.';
    var (pr, p3, k3) := if dot then ReadCount(fmt, p2 + 1, args, k2) else (0, p2, k2);
    var precise := dot && pr >= 0;
    var (m, p4) := ReadModifier(fmt, p3);
    var (conv, m2) := Synonym(Peek(fmt, p4), m);
    (Spec(fl2, width, precise, if precise then pr else 0, m2, conv), p4, k3)
  }

  // ----- converting an argument -----

  predicate IsNumeric(c: char) {
    c == 'd' || c == 'u' || c == 'o' || c == 'x' || c == 'X' || c == 'p'
  }

  /** 0 for zero (or NULL); the sign matters for d only. */
  function ArgSign(conv: char, n: int): int {
    if n == 0 then 0 else if conv == 'd' && n < 0 then -1 else 1
  }

  /** What goes into tmp before sprintf is called. */
  function Prefix(sp: Spec, n: int): (s: string)
    ensures |s| <= 2
  {
    if sp.conv == 'd' then
      if sp.fl.sign && ArgSign('d', n) >= 0 then [if sp.fl.space then ' ' else '+'] else []
    else if sp.fl.alt && n != 0 && (sp.conv == 'x' || sp.conv == 'X') then ['0', sp.conv]
    else []
  }

  /** Past a minus sign and a "0x" that sprintf itself wrote. */
  function SkipSign(t: string, i: int): (j: int)
    requires 0 <= i <= |t|
    ensures i <= j <= |t|
  {
    var i1 := if i < |t| && t[i] == '-' then i + 1 else i;
    if i1 + 1 < |t| && t[i1] == '0' && (t[i1 + 1] == 'x' || t[i1 + 1] == 'X') then i1 + 2 else i1
  }

  /** `text` is what the system's sprintf writes for a plain conversion of the number. */
  function NumberField(sp: Spec, n: int, text: (char, char, int) -> string): (f: Field)
    requires 0 <= sp.width
    ensures f.Ok()
  {
    var prefix := Prefix(sp, n);
    var prec := if sp.precise then sp.prec else 1;
    var nothing := prec == 0 && n == 0;
    var modifier := if sp.conv == 'p' then '\0' else sp.modifier;
    var t := if nothing then prefix else prefix + text(sp.conv, modifier, n);
    var ind := if nothing then |prefix| else SkipSign(t, |prefix|);
    var digits := |t| - ind;
    var octal := sp.fl.alt && sp.conv == 'o' && !(ind < |t| && t[ind] == '0');
    var prec2 := if octal && (!sp.precise || prec < digits + 1) then digits + 1 else prec;
    Field(t, ind, if digits < prec2 then prec2 - digits else 0, sp.fl.zero && !sp.precise, sp.fl.left, sp.width)
  }

  function TextField(sp: Spec, t: string): Field {
    Field(t, 0, 0, false, sp.fl.left, sp.width)
  }

  function StringField(sp: Spec, a: Arg): Field {
    if !a.Str? then TextField(sp, [])
    else TextField(sp, if !sp.precise || |a.s| <= sp.prec then a.s else a.s[..Max(0, sp.prec)])
  }

  /** The converted argument of the specification whose conversion character is at p. */
  function ReadField(fmt: string, p: nat, sp: Spec, args: seq<Arg>, k: nat, text: (char, char, int) -> string): (r: (Field, nat))
    requires 0 <= sp.width
    ensures r.0.Ok()
  {
    if sp.conv == '%' then (TextField(sp, [Peek(fmt, p)]), k)
    else if sp.conv == 'c' then (TextField(sp, [(IntAt(args, k) % 256) as char]), k + 1)
    else if sp.conv == 's' then (StringField(sp, StrAt(args, k)), k + 1)
    else if IsNumeric(sp.conv) then (NumberField(sp, IntAt(args, k), text), k + 1)
    else (Field(if p < |fmt| then [fmt[p]] else [], 0, 0, false, true, 0), k)
  }

  // ----- chunks -----

  /** The subtraction of lines 917, 945 and 994, in size_t. */
  function Room(width: int, len: int): int {
    (width - len) % SIZE_MAX1
  }

  function ZerosOf(f: Field): (z: int)
    ensures 0 <= f.zeros ==> 0 <= z
  {
    if f.zeroFill && !f.left then (f.zeros + Room(f.width, |f.text| + f.zeros)) % SIZE_MAX1 else f.zeros
  }

  /** The contents with their zeros; all in one piece when there are none. */
  function Body(t: string, ind: int, zeros: int): (cs: seq<Chunk>)
    requires 0 <= ind <= |t| && 0 <= zeros
    ensures forall c | c in cs :: c.Len() >= 0
  {
    if zeros == 0 then [Copy(t)] else [Copy(t[..ind]), Fill('0', zeros), Copy(t[ind..])]
  }

  function Chunks(f: Field): (cs: seq<Chunk>)
    requires f.Ok()
    ensures forall c | c in cs :: c.Len() >= 0
  {
    var zeros := ZerosOf(f);
    var pad := Room(f.width, |f.text| + zeros);
    (if f.left then [] else [Fill(if f.zeroFill then '0' else ' ', pad)])
    + Body(f.text, f.ind, zeros)
    + (if f.left then [Fill(' ', pad)] else [])
  }

  /** The index of the next '%' from p on, or the end. */
  function NextPercent(fmt: string, p: nat): (q: nat)
    requires p <= |fmt|
    ensures p <= q <= |fmt|
    ensures forall i | p <= i < q :: fmt[i] != '%'
    ensures q < |fmt| ==> fmt[q] == '%'
    decreases |fmt| - p
  {
    if p == |fmt| || fmt[p] == '%' then p else NextPercent(fmt, p + 1)
  }

  /** A format is read as a list of literal runs and converted fields. */
  datatype Item = Literal(s: string) | Converted(f: Field)

  function Items(fmt: string, p: nat, args: seq<Arg>, k: nat, text: (char, char, int) -> string): (its: seq<Item>)
    requires p <= |fmt|
    ensures forall it | it in its :: it.Converted? ==> it.f.Ok()
    decreases |fmt| - p
  {
    if p == |fmt| then []
    else if fmt[p] != '%' then
      var q := NextPercent(fmt, p);
      [Literal(fmt[p..q])] + Items(fmt, q, args, k, text)
    else
      var (sp, p1, k1) := ReadSpec(fmt, p + 1, args, k);
      var (f, k2) := ReadField(fmt, p1, sp, args, k1, text);
      [Converted(f)] + Items(fmt, if p1 < |fmt| then p1 + 1 else p1, args, k2, text)
  }

  function ItemChunks(it: Item): (cs: seq<Chunk>)
    requires it.Converted? ==> it.f.Ok()
    ensures forall c | c in cs :: c.Len() >= 0
  {
    match it
    case Literal(s) => [Copy(s)]
    case Converted(f) => Chunks(f)
  }

  // ----- the buffer -----

  datatype Paper = Paper(buf: string, len: int)

  /** Chunk c goes to the buffer at len, clipped at m; the length runs on. */
  function Write(b: Paper, m: int, c: Chunk): (r: Paper)
    requires 0 <= b.len && m <= |b.buf| && c.Len() >= 0
    ensures |r.buf| == |b.buf| && 0 <= r.len < SIZE_MAX1
    ensures forall i | 0 <= i < |b.buf| ::
      r.buf[i] == if b.len <= i < b.len + c.Len() && i < m then c.At(i - b.len) else b.buf[i]
  {
    Paper(seq(|b.buf|, i requires 0 <= i < |b.buf| =>
                if b.len <= i < b.len + c.Len() && i < m then c.At(i - b.len) else b.buf[i]),
          (b.len + c.Len()) % SIZE_MAX1)
  }

  function WriteAll(b: Paper, m: int, cs: seq<Chunk>): (r: Paper)
    requires 0 <= b.len && m <= |b.buf| && forall c | c in cs :: c.Len() >= 0
    ensures |r.buf| == |b.buf| && 0 <= r.len && (cs != [] ==> r.len < SIZE_MAX1)
    decreases |cs|
  {
    if cs == [] then b else WriteAll(Write(b, m, cs[0]), m, cs[1..])
  }

  function WriteItems(b: Paper, m: int, its: seq<Item>): (r: Paper)
    requires 0 <= b.len && m <= |b.buf|
    requires forall it | it in its :: it.Converted? ==> it.f.Ok()
    ensures |r.buf| == |b.buf| && 0 <= r.len
    decreases |its|
  {
    if its == [] then b else WriteItems(WriteAll(b, m, ItemChunks(its[0])), m, its[1..])
  }

  /** The NUL, over the last byte when the text does not fit. */
  function Terminate(b: Paper, m: int): (s: string)
    requires 0 <= b.len && m <= |b.buf|
    ensures |s| == |b.buf|
  {
    if m > 0 then b.buf[(if b.len <= m - 1 then b.len else m - 1) := '\0'] else b.buf
  }

  /** (int) str_l: the low 32 bits, two's complement. */
  function ToInt(len: int): int {
    var low := len % UINT_MAX1;
    if low < 0x8000_0000 then low else low - UINT_MAX1
  }

  /** The result of the call: the buffer it leaves and the int it returns. */
  function Vsnprintf(buf: string, m: int, fmt: string, args: seq<Arg>, text: (char, char, int) -> string): (r: (string, int))
    requires 0 <= m <= |buf|
    ensures |r.0| == |buf|
  {
    var r := WriteItems(Paper(buf, 0), m, Items(fmt, 0, args, 0, text));
    (Terminate(r, m), ToInt(r.len))
  }

  // ----- padding that does not wrap -----

  function Repeat(c: char, n: int): (s: string)
    ensures |s| == Max(0, n) && forall i | 0 <= i < |s| :: s[i] == c
  {
    seq(Max(0, n), _ => c)
  }

  /** The field with zeros after the sign, and blanks only as far as the width
      exceeds the rest. */
  function PaddedField(f: Field): (s: string)
    requires f.Ok()
    ensures |s| == Max(f.width, |f.text| + f.zeros)
  {
    var zeros := if f.zeroFill && !f.left then Max(f.zeros, f.width - |f.text|) else f.zeros;
    var body := f.text[..f.ind] + Repeat('0', zeros) + f.text[f.ind..];
    var blanks := Repeat(' ', f.width - |body|);
    if f.left then body + blanks else blanks + body
  }

  function PaddedItem(it: Item): string
    requires it.Converted? ==> it.f.Ok()
  {
    match it
    case Literal(s) => s
    case Converted(f) => PaddedField(f)
  }

  function PaddedText(its: seq<Item>): string
    requires forall it | it in its :: it.Converted? ==> it.f.Ok()
    decreases |its|
  {
    if its == [] then [] else PaddedItem(its[0]) + PaddedText(its[1..])
  }

  /** The field is at least as wide as its contents. */
  predicate Fits(it: Item) {
    it.Converted? ==> |it.f.text| + it.f.zeros <= it.f.width
  }
}
