/** The loop of StringUtil::vform: format, and start again with a larger buffer while it did not fit. */
module GrowAndRetry {
  import opened FormatSpec
  import opened Strings
  import BoundedFormat
  import FormatProofs
  import IsoFormat
  import IsoProofs
  import WidthFormats

  /** The vsnprintf behind the loop: the portable one; one that returns the
      length the text needs; or an old one that returns -1 when it truncates. */
  datatype Formatter =
    | Portable(fmt: string, args: seq<Arg>, conv: (char, char, int) -> string)
    | Measuring(s: string)
    | Truncating(s: string)

  /** The length that has to be below the size of the buffer. */
  function Needs(f: Formatter): int {
    match f
    case Portable(fmt, args, conv) => FormatSpec.Vsnprintf([], 0, fmt, args, conv).1
    case Measuring(s) => |s|
    case Truncating(s) => |s|
  }

  /** The text itself; for the portable formatter, the one ISO C asks for. */
  function Text(f: Formatter): string {
    match f
    case Portable(fmt, args, conv) => IsoFormat.Iso(fmt, args, conv)
    case Measuring(s) => s
    case Truncating(s) => s
  }

  /** A length is an int. */
  predicate Usable(f: Formatter) {
    if f.Portable? then '\0' !in f.fmt else |f.s| < 0x8000_0000
  }

  /** The formatter does its job: it writes the text ISO C asks for. */
  ghost predicate Faithful(f: Formatter) {
    && '\0' !in Text(f) && |Text(f)| < 0x8000_0000
    && (f.Portable? ==> IsoFormat.Faithful(f.fmt, f.args, f.conv))
  }

  lemma CStringIs(buf: string, s: string)
    requires |s| < |buf| && buf[..|s|] == s && '\0' !in s && buf[|s|] == '\0'
    ensures CString(buf) == s
  {
    forall i | 0 <= i < |s| ensures buf[i] != '\0' { assert buf[i] == s[i]; }
    FindIs(buf, '\0', 0, |s|);
  }

  method Call(f: Formatter, buffer: array<char>, size: int) returns (n: int)
    requires Usable(f) && size == buffer.Length > 0
    modifies buffer
    ensures n == if f.Truncating? && size <= Needs(f) then -1 else Needs(f)
    ensures Faithful(f) && Needs(f) < size ==> CString(buffer[..]) == Text(f)
  {
    match f
    case Portable(fmt, args, conv) =>
      ghost var b := buffer[..];
      FormatProofs.ReturnIndependent([], 0, b, size, fmt, args, conv);
      n := BoundedFormat.Vsnprintf(buffer, size, fmt, args, conv);
      PortableText(f, b, buffer[..]);
    case _ =>
      var s := f.s;
      var cut := if |s| < size then |s| else size - 1;
      var i := 0;
      while i < cut
        invariant 0 <= i <= cut && buffer[..i] == s[..i]
      {
        buffer[i] := s[i];
        i := i + 1;
      }
      buffer[cut] := '\0';
      n := if f.Truncating? && size <= |s| then -1 else |s|;
      if |s| < size && '\0' !in s { CStringIs(buffer[..], s); }
  }

  lemma PortableText(f: Formatter, b: string, after: string)
    requires f.Portable? && |b| > 0 && after == FormatSpec.Vsnprintf(b, |b|, f.fmt, f.args, f.conv).0
    ensures Faithful(f) && Needs(f) < |b| ==> CString(after) == Text(f)
  {
    if Faithful(f) && Needs(f) < |b| {
      hide FormatSpec.Vsnprintf, IsoFormat.Iso, IsoFormat.Wide, IsoFormat.Covered, IsoFormat.WellPrinted;
      var iso := IsoFormat.Iso(f.fmt, f.args, f.conv);
      IsoProofs.ReturnExactlyWhenWide([], 0, f.fmt, f.args, f.conv);
      IsoProofs.BufferIsIso(b, |b|, f.fmt, f.args, f.conv);
      assert iso[..|iso|] == iso;
      CStringIs(after, iso);
    }
  }

  function Pow2(k: nat): int { if k == 0 then 1 else 2 * Pow2(k - 1) }

  /** What has come of the loop after some turns: the text, a buffer of that size
      next, or `n + 1` past the largest int. */
  datatype Outcome = Done(text: string) | Growing(size: int) | Overflow

  /** Turns enough for a length that is not negative. */
  predicate Enough(f: Formatter, turns: nat) {
    turns > 0 && if f.Truncating? then Needs(f) < 512 * Pow2(turns) else turns > 1 || Needs(f) < 1024
  }

  /** A length that is reported must have an int behind it. */
  predicate Ends(f: Formatter) {
    Needs(f) >= 0 && (f.Truncating? || Needs(f) < IsoFormat.INT_LIMIT)
  }

  lemma ReportedLength(f: Formatter)
    requires Usable(f)
    ensures !f.Portable? ==> 0 <= Needs(f)
    ensures Needs(f) <= IsoFormat.INT_LIMIT
  {
    hide FormatSpec.Items, FormatSpec.WriteItems;
  }

  /** vform, stopped after so many turns: it is done if and only if the length is
      one it ends for and the turns were enough. Two are, where the length is
      reported; with a negative one it goes on doubling for ever. */
  method Vform(f: Formatter, turns: nat) returns (r: Outcome)
    requires Usable(f)
    ensures r.Done? <==> Ends(f) && Enough(f, turns)
    ensures r.Done? && Faithful(f) ==> r.text == Text(f)
    ensures r == Overflow <==> turns > 0 && !f.Truncating? && Needs(f) == IsoFormat.INT_LIMIT
    ensures Needs(f) < 0 ==> r == Growing(1024 * Pow2(turns))
  {
    hide Needs, Text, Faithful;
    var size := 1024;
    var pass := 0;
    PowGrows(0, turns);
    ReportedLength(f);
    while pass < turns
      invariant pass <= turns && 1024 <= size && (pass == 0 ==> size == 1024)
      invariant f.Truncating? || Needs(f) < 0 ==> size == 1024 * Pow2(pass)
      invariant f.Truncating? && pass > 0 ==> 512 * Pow2(pass) <= Needs(f)
      invariant !f.Truncating? && Needs(f) >= 0 && pass > 0 ==>
        pass == 1 && 1024 <= Needs(f) < IsoFormat.INT_LIMIT && size == Needs(f) + 1
    {
      var buffer := new char[size];
      var n := Call(f, buffer, size);
      pass := pass + 1;
      PowGrows(pass, turns);
      assert Pow2(pass) == 2 * Pow2(pass - 1);
      if n > -1 && n < size {
        assert f.Truncating? ==> Needs(f) < 512 * Pow2(pass) <= 512 * Pow2(turns);
        return Done(CString(buffer[..]));
      }
      if n == IsoFormat.INT_LIMIT {
        return Overflow;
      }
      size := if n > -1 then n + 1 else size * 2;
    }
    return Growing(size);
  }

  lemma {:induction false} PowGrows(a: nat, b: nat)
    requires a <= b
    ensures b < Pow2(b) && Pow2(a) <= Pow2(b)
    decreases b
  {
    if b > 0 {
      PowGrows(if a < b then a else b - 1, b - 1);
    }
  }

  /** Where it ends at all, some number of turns is enough. */
  lemma EnoughIsReached(f: Formatter)
    ensures Ends(f) <==> exists turns: nat :: Ends(f) && Enough(f, turns)
  {
    if Ends(f) {
      PowGrows(0, Needs(f) + 2);
      assert Enough(f, Needs(f) + 2);
    }
  }

  /** The portable length is negative, or the largest int, if and only if the
      widths of the fields and the literal text add up, modulo 2 to the 32, to
      2 to the 31 or more, or to one less. */
  lemma EndlessExactly(fmt: string, args: seq<Arg>, conv: (char, char, int) -> string)
    ensures var n := Needs(Portable(fmt, args, conv));
      var sum := FormatProofs.Advance(Items(fmt, 0, args, 0, conv)) % UINT_MAX1;
      && (n < 0 <==> sum >= 0x8000_0000)
      && (n == IsoFormat.INT_LIMIT <==> sum == 0x7fff_ffff)
      && n == (if sum < 0x8000_0000 then sum else sum - UINT_MAX1)
  {
    hide Items, WriteItems, FormatProofs.Advance;
    var its := Items(fmt, 0, args, 0, conv);
    FormatProofs.ItemsLen(Paper("", 0), 0, its);
    LowBits(FormatProofs.Advance(its));
  }

  lemma LowBits(x: int)
    ensures (x % SIZE_MAX1) % UINT_MAX1 == x % UINT_MAX1
  {
    var q := x / SIZE_MAX1;
    assert x == q * SIZE_MAX1 + x % SIZE_MAX1 == (q * UINT_MAX1) * UINT_MAX1 + x % SIZE_MAX1;
    Shift32(x % SIZE_MAX1, q * UINT_MAX1);
  }

  lemma Shift32(x: int, q: int)
    ensures (x + q * UINT_MAX1) % UINT_MAX1 == x % UINT_MAX1
  {
  }

  /** One string under a width is enough for both: the length is the width, as an int. */
  lemma WidthIsTheLength(w: nat, s: string, conv: (char, char, int) -> string)
    requires 0 < w < UINT_MAX1
    ensures Needs(Portable("%" + (Decimal(w) + "s"), [Str(s)], conv)) == ToInt(w)
  {
    hide Needs, Items, Decimal;
    var fmt := "%" + (Decimal(w) + "s");
    WidthFormats.WidthItems(w, 's', [Str(s)], conv);
    var f := TextField(Spec(NO_FLAGS, w, false, 0, '\0', 's'), s);
    assert [Converted(f)][1..] == [];
    EndlessExactly(fmt, [Str(s)], conv);
  }

  /** So vform ends for "%<w>s" if and only if the width is below the largest int. */
  lemma WideStringIsEndless(w: nat, s: string, conv: (char, char, int) -> string)
    requires 0 < w < UINT_MAX1
    ensures Ends(Portable("%" + (Decimal(w) + "s"), [Str(s)], conv)) <==> w < IsoFormat.INT_LIMIT
  {
    hide Needs, Decimal;
    WidthIsTheLength(w, s, conv);
  }
}
