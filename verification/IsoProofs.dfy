/** Where the formatter does what ISO C asks for, and where it does not. */
module IsoProofs {
  import opened FormatProofs
  import opened FormatSpec
  import opened IsoFormat
  import opened Strings

  // ----- the two readers agree on what is covered -----

  /** What a run of flags sets, in whatever order they stand. */
  function FlagsOf(run: string, fl: Flags): Flags {
    Flags(fl.zero || '0' in run, fl.left || '-' in run, fl.sign || '+' in run || ' ' in run,
          fl.space && '+' !in run, fl.alt || '#' in run)
  }

  lemma FlagsOfMore(c: char, run: string, fl: Flags)
    requires IsoFlag(c)
    ensures FlagsOf([c] + run, fl) == FlagsOf(run, SetFlag(fl, c))
  {
  }

  lemma {:induction false} FlagsRead(fmt: string, p: nat, fl: Flags)
    requires p <= |fmt| && Peek(fmt, FlagsEnd(fmt, p)) != '\''
    ensures ReadFlags(fmt, p, fl) == (FlagsOf(fmt[p..FlagsEnd(fmt, p)], fl), FlagsEnd(fmt, p))
    decreases |fmt| - p
  {
    hide FlagsOf, SetFlag;
    var q := FlagsEnd(fmt, p);
    if p < |fmt| && IsoFlag(fmt[p]) {
      assert fmt[p..q] == [fmt[p]] + fmt[p + 1..q];
      FlagsOfMore(fmt[p], fmt[p + 1..q], fl);
      FlagsRead(fmt, p + 1, SetFlag(fl, fmt[p]));
    } else {
      assert fmt[p..q] == "";
      FlagsOfNone(fl);
    }
  }

  lemma FlagsOfNone(fl: Flags)
    ensures FlagsOf("", fl) == fl
  {
  }

  lemma {:induction false} DigitsRead(fmt: string, p: nat, acc: nat)
    requires p <= |fmt| && Accumulate(fmt, p, acc).0 < UINT_MAX1
    ensures ReadDigits(fmt, p, acc) == Accumulate(fmt, p, acc)
    decreases |fmt| - p
  {
    if p < |fmt| && IsDigit(fmt[p]) {
      var more := 10 * acc + (fmt[p] as int - '0' as int);
      assert more <= Accumulate(fmt, p + 1, more).0 && more % UINT_MAX1 == more;
      assert (fmt[p] - '0') as int == fmt[p] as int - '0' as int;
      DigitsRead(fmt, p + 1, 10 * acc + (fmt[p] as int - '0' as int));
    }
  }

  lemma CountRead(fmt: string, p: nat, args: seq<Arg>, k: nat)
    requires p <= |fmt| && IsoCount(fmt, p, args, k).0 <= INT_LIMIT
    ensures ReadCount(fmt, p, args, k) == IsoCount(fmt, p, args, k)
  {
    if Peek(fmt, p) != '*' { DigitsRead(fmt, p, 0); }
  }

  lemma ModifierRead(fmt: string, p: nat)
    requires p <= |fmt|
    requires var m := IsoModifier(fmt, p); m == "" || m == "h" || m == "l" || m == "ll"
    ensures var m := IsoModifier(fmt, p); ReadModifier(fmt, p) == (Modifier(m), p + |m|)
  {
  }

  /** The specification read is the directive. */
  ghost predicate Same(d: Directive, sp: Spec) {
    && sp.width == d.width && sp.precise == (d.prec >= 0) && sp.prec == (if d.prec >= 0 then d.prec else 0)
    && sp.fl.left == ('-' in d.flags) && sp.fl.zero == ('0' in d.flags) && sp.fl.alt == ('#' in d.flags)
    && sp.fl.sign == ('+' in d.flags || ' ' in d.flags) && sp.fl.space == ('+' !in d.flags)
    && sp.modifier == Modifier(d.modifier) && sp.conv == if d.conv == 'i' then 'd' else d.conv
  }

  lemma NoQuote(fmt: string, p: nat, args: seq<Arg>, k: nat)
    requires p <= |fmt| && Peek(fmt, FlagsEnd(fmt, p)) == '\''
    ensures IsoDirective(fmt, p, args, k).0.conv == '\'' && IsoDirective(fmt, p, args, k).0.modifier == ""
  {
  }

  lemma SpecRead(fmt: string, p: nat, args: seq<Arg>, k: nat)
    requires p <= |fmt|
    requires var (d, at, k1) := IsoDirective(fmt, p, args, k); at < |fmt| && CoveredDirective(d, p, at, args, k1)
    ensures var (d, at, k1) := IsoDirective(fmt, p, args, k); var r := ReadSpec(fmt, p, args, k);
      Same(d, r.0) && r.1 == at && r.2 == k1
  {
    hide FlagsEnd, ReadFlags, IsoCount, ReadCount, IsoModifier, ReadModifier;
    var (d, at, k1) := IsoDirective(fmt, p, args, k);
    var q := FlagsEnd(fmt, p);
    if Peek(fmt, q) == '\'' { NoQuote(fmt, p, args, k); }
    FlagsRead(fmt, p, NO_FLAGS);
    CountRead(fmt, q, args, k);
    var (w, p2, k2) := IsoCount(fmt, q, args, k);
    if Peek(fmt, p2) == '.' && p2 < |fmt| { CountRead(fmt, p2 + 1, args, k2); }
    var p3 := if Peek(fmt, p2) == '.' && p2 < |fmt| then IsoCount(fmt, p2 + 1, args, k2).1 else p2;
    ModifierRead(fmt, p3);
  }

  // ----- one field -----

  lemma TextIsIso(sp: Spec, d: Directive, s: string)
    requires Same(d, sp) && d.width >= 0 && ('0' in d.flags ==> !Integral(d.conv))
    ensures PaddedField(TextField(sp, s)) == IsoPadded(d, Parts("", 0, s))
  {
    var f := TextField(sp, s);
    assert s[..0] + Repeat('0', 0) + s[0..] == s;
    assert "" + Repeat('0', 0) + s == s;
    assert d.width <= |s| ==> Repeat(' ', d.width - |s|) == "" == Repeat(' ', 0);
    assert s + "" == s && "" + s == s;
  }

  lemma NumberIsIso(sp: Spec, d: Directive, n: int, text: (char, char, int) -> string)
    requires Same(d, sp) && d.width >= 0 && Integral(d.conv) && WellPrinted(text)
    requires '#' in d.flags ==> d.conv == 'o' || d.conv == 'x' || d.conv == 'X'
    requires d.conv == 'd' || d.conv == 'i' || n >= 0
    ensures var f := NumberField(sp, n, text); var c := IsoNumber(d, n, Digits(d, n, text));
      && PaddedField(f) == IsoPadded(d, c) && |f.text| + f.zeros == c.Len() && f.width == d.width
  {
    hide NumberField, IsoNumber, PaddedField, IsoPadded, MarkOf, IsoMark, Printed, PlainDigits;
    var digits := Digits(d, n, text);
    DigitsPrinted(sp, d, n, text);
    NumberParts(sp, n, text, digits);
    MarkIsIso(sp, d, n);
    ZerosAreIso(sp, d, n, digits);
    var f := NumberField(sp, n, text);
    PartsArePadded(f, d, IsoNumber(d, n, digits));
  }

  lemma DigitsPrinted(sp: Spec, d: Directive, n: int, text: (char, char, int) -> string)
    requires Same(d, sp) && Integral(d.conv) && WellPrinted(text) && (d.conv == 'd' || d.conv == 'i' || n >= 0)
    ensures IsNumeric(sp.conv) && sp.conv != 'p' && PlainDigits(Digits(d, n, text))
    ensures text(sp.conv, sp.modifier, n) == (if sp.conv == 'd' && n < 0 then "-" else "") + Digits(d, n, text)
  {
    var t := text(sp.conv, sp.modifier, n);
    assert Printed(sp.conv, n, t);
    assert "" + t == t;
  }

  lemma MarkIsIso(sp: Spec, d: Directive, n: int)
    requires Same(d, sp) && Integral(d.conv)
    ensures MarkOf(sp, n) == IsoMark(d, n)
  {
  }

  /** The zeros the octal form adds are the one ISO C asks for. */
  lemma ZerosAreIso(sp: Spec, d: Directive, n: int, digits: string)
    requires Same(d, sp) && digits != ""
    ensures var prec := if sp.precise then sp.prec else 1;
      var shown := if prec == 0 && n == 0 then "" else digits;
      var least := if sp.conv == 'o' && sp.fl.alt && !(|shown| > 0 && shown[0] == '0') then Max(prec, |shown| + 1) else prec;
      IsoNumber(d, n, digits) == Parts(IsoMark(d, n), Max(least, |shown|) - |shown|, shown)
  {
    hide IsoMark;
  }

  /** A field whose parts are those of the conversion is padded alike. */
  lemma PartsArePadded(f: Field, d: Directive, c: Converted)
    requires f.Ok() && f.text[..f.ind] == c.mark && f.text[f.ind..] == c.rest && f.zeros == c.zeros && f.width == d.width
    requires f.left == ('-' in d.flags) && f.zeroFill == ('0' in d.flags && d.prec < 0 && Integral(d.conv))
    ensures PaddedField(f) == IsoPadded(d, c) && |f.text| + f.zeros == c.Len()
  {
    assert f.text == c.mark + c.rest;
    var zeros := if f.zeroFill && !f.left then Max(f.zeros, f.width - |f.text|) else f.zeros;
    var body := f.text[..f.ind] + Repeat('0', zeros) + f.text[f.ind..];
    var room := Max(0, d.width - c.Len());
    if f.zeroFill && !f.left {
      assert zeros == room + c.zeros;
      assert Repeat(' ', f.width - |body|) == "";
      assert "" + body == body;
    } else {
      assert Repeat(' ', f.width - |body|) == Repeat(' ', room);
    }
  }

  lemma PointerIsIso(sp: Spec, d: Directive, n: int, text: (char, char, int) -> string)
    requires Same(d, sp) && d.width >= 0 && d.conv == 'p' && d.prec < 0 && '#' !in d.flags && '0' !in d.flags && WellPrinted(text)
    ensures var f := NumberField(sp, n, text); var c := Parts("", 0, text('p', '\0', n));
      && PaddedField(f) == IsoPadded(d, c) && |f.text| + f.zeros == c.Len() && f.width == d.width
  {
    hide SkipSign, PaddedField, IsoPadded;
    var t := text('p', '\0', n);
    assert Printed('p', n, t);
    PointerText(t);
    var f := NumberField(sp, n, text);
    assert [] + t == t && f.text == t && f.zeros == 0;
    WholePadded(f, sp, t);
    TextIsIso(sp, d, t);
  }

  /** What is left behind the mark of a pointer is not empty. */
  lemma PointerText(t: string)
    requires PlainDigits(t) || (|t| > 2 && t[0] == '0' && (t[1] == 'x' || t[1] == 'X'))
    ensures SkipSign(t, 0) < |t|
  {
  }

  /** Without zeros it does not matter where they would go. */
  lemma WholePadded(f: Field, sp: Spec, t: string)
    requires f.Ok() && f.text == t && f.zeros == 0 && !f.zeroFill && f.left == sp.fl.left && f.width == sp.width
    ensures PaddedField(f) == PaddedField(TextField(sp, t))
  {
    assert t[..f.ind] + Repeat('0', 0) + t[f.ind..] == t;
    assert t[..0] + Repeat('0', 0) + t[0..] == t;
  }

  /** The field the program makes of a covered directive is padded as ISO C has it. */
  lemma FieldIsIso(fmt: string, p: nat, at: nat, sp: Spec, d: Directive, args: seq<Arg>, k: nat, text: (char, char, int) -> string)
    requires Same(d, sp) && at < |fmt| && fmt[at] == d.conv && CoveredDirective(d, p, at, args, k) && d.width >= 0 && WellPrinted(text)
    requires d.conv == '%' ==> d.flags == {}
    ensures var r := ReadField(fmt, at, sp, args, k, text); var c := IsoConverted(d, args, k, text);
      && PaddedField(r.0) == IsoPadded(d, c) && |r.0.text| + r.0.zeros == c.Len() && r.0.width == d.width
      && r.1 == k + Takes(d.conv)
  {
    hide NumberField, IsoNumber, Digits, PaddedField, IsoPadded, WellPrinted, Same;
    SameConv(d, sp);
    if d.conv == '%' {
      TextIsIso(sp, d, "%");
    } else if d.conv == 'c' {
      TextIsIso(sp, d, [(IntAt(args, k) % 256) as char]);
    } else if d.conv == 's' {
      var s := args[k].s;
      TextIsIso(sp, d, if 0 <= d.prec < |s| then s[..d.prec] else s);
    } else if d.conv == 'p' {
      PointerIsIso(sp, d, IntAt(args, k), text);
    } else {
      NumberIsIso(sp, d, IntAt(args, k), text);
    }
  }

  lemma SameConv(d: Directive, sp: Spec)
    requires Same(d, sp)
    ensures sp.conv == (if d.conv == 'i' then 'd' else d.conv) && sp.width == d.width
    ensures sp.precise == (d.prec >= 0) && sp.prec == if d.prec >= 0 then d.prec else 0
  {
  }

  // ----- whole formats -----

  lemma LiteralOne(fmt: string, p: nat, args: seq<Arg>, k: nat, text: (char, char, int) -> string)
    requires p < |fmt| && fmt[p] != '%'
    ensures IsoFrom(fmt, p, args, k, text) == [fmt[p]] + IsoFrom(fmt, p + 1, args, k, text)
    ensures WideFrom(fmt, p, args, k, text) == WideFrom(fmt, p + 1, args, k, text)
    ensures CoveredFrom(fmt, p, args, k) == CoveredFrom(fmt, p + 1, args, k)
  {
    hide IsoDirective, IsoConverted, IsoPadded, CoveredDirective;
  }

  lemma {:induction false} LiteralRun(fmt: string, p: nat, q: nat, args: seq<Arg>, k: nat, text: (char, char, int) -> string)
    requires p <= q <= |fmt| && forall i | p <= i < q :: fmt[i] != '%'
    ensures IsoFrom(fmt, p, args, k, text) == fmt[p..q] + IsoFrom(fmt, q, args, k, text)
    ensures WideFrom(fmt, p, args, k, text) == WideFrom(fmt, q, args, k, text)
    ensures CoveredFrom(fmt, p, args, k) == CoveredFrom(fmt, q, args, k)
    decreases q - p
  {
    hide IsoFrom, WideFrom, CoveredFrom;
    if p == q {
      assert fmt[p..q] == "" && "" + IsoFrom(fmt, q, args, k, text) == IsoFrom(fmt, q, args, k, text);
    } else {
      LiteralOne(fmt, p, args, k, text);
      LiteralRun(fmt, p + 1, q, args, k, text);
      assert fmt[p..q] == [fmt[p]] + fmt[p + 1..q];
      assert ([fmt[p]] + fmt[p + 1..q]) + IsoFrom(fmt, q, args, k, text) == [fmt[p]] + (fmt[p + 1..q] + IsoFrom(fmt, q, args, k, text));
    }
  }

  lemma DirectiveIs(fmt: string, p: nat, args: seq<Arg>, k: nat)
    requires p <= |fmt|
    ensures var (d, at, k1) := IsoDirective(fmt, p, args, k);
      && d.width >= 0 && d.conv == Peek(fmt, at) && (at == p ==> d.flags == {})
  {
    hide FlagsEnd, IsoModifier, IsoCount;
    var q := FlagsEnd(fmt, p);
    if q == p {
      assert fmt[p..q] == "";
      Width0(fmt, p, args, k);
    }
  }

  /** Without a character there is no count, and no negative one. */
  lemma Width0(fmt: string, p: nat, args: seq<Arg>, k: nat)
    requires p <= |fmt|
    ensures IsoCount(fmt, p, args, k).1 == p ==> IsoCount(fmt, p, args, k).0 >= 0
  {
  }

  /** The program's items, padded without wrapping, are the ISO text, and their
      fields are wide enough when those of the ISO text are. */
  lemma {:induction false} ItemsAreIso(fmt: string, p: nat, args: seq<Arg>, k: nat, text: (char, char, int) -> string)
    requires p <= |fmt| && CoveredFrom(fmt, p, args, k) && WellPrinted(text)
    ensures var its := Items(fmt, p, args, k, text);
      && PaddedText(its) == IsoFrom(fmt, p, args, k, text)
      && AllFit(its) == WideFrom(fmt, p, args, k, text)
    decreases |fmt| - p
  {
    hide IsoDirective, CoveredDirective, IsoConverted, IsoPadded, PaddedField, ReadSpec, ReadField, WellPrinted, Same, NextPercent;
    if p < |fmt| {
      if fmt[p] != '%' {
        var q := NextPercent(fmt, p);
        FirstPercent(fmt, p);
        LiteralRun(fmt, p, q, args, k, text);
        ItemsAreIso(fmt, q, args, k, text);
        ItemsCons(Literal(fmt[p..q]), Items(fmt, q, args, k, text));
      } else {
        var (d, at, k1) := IsoDirective(fmt, p + 1, args, k);
        var (sp, p1, k2) := ReadSpec(fmt, p + 1, args, k);
        DirectiveIs(fmt, p + 1, args, k);
        SpecRead(fmt, p + 1, args, k);
        PercentHasNoFlags(d, p + 1, at, args, k1);
        FieldIsIso(fmt, p + 1, at, sp, d, args, k1, text);
        var (f, k3) := ReadField(fmt, at, sp, args, k1, text);
        ItemsAreIso(fmt, at + 1, args, k3, text);
        ItemsCons(Converted(f), Items(fmt, at + 1, args, k3, text));
      }
    }
  }

  lemma FirstPercent(fmt: string, p: nat)
    requires p < |fmt| && fmt[p] != '%'
    ensures p < NextPercent(fmt, p)
  {
  }

  lemma PercentHasNoFlags(d: Directive, p: nat, at: nat, args: seq<Arg>, k: nat)
    requires CoveredDirective(d, p, at, args, k) && (at == p ==> d.flags == {})
    ensures d.conv == '%' ==> d.flags == {}
  {
  }

  lemma ItemsCons(it: Item, its: seq<Item>)
    requires (it.Converted? ==> it.f.Ok()) && forall i | i in its :: i.Converted? ==> i.f.Ok()
    ensures PaddedText([it] + its) == PaddedItem(it) + PaddedText(its)
    ensures AllFit([it] + its) == (Fits(it) && AllFit(its))
  {
    assert ([it] + its)[1..] == its;
  }

  lemma FormatIsIso(fmt: string, args: seq<Arg>, text: (char, char, int) -> string)
    requires Covered(fmt, args) && WellPrinted(text)
    ensures PaddedText(Items(fmt, 0, args, 0, text)) == Iso(fmt, args, text)
    ensures AllFit(Items(fmt, 0, args, 0, text)) == Wide(fmt, args, text)
  {
    ItemsAreIso(fmt, 0, args, 0, text);
  }

  // ----- what the program returns and writes -----

  /** For every format covered, the value returned is the length ISO C asks for if
      and only if every field is at least as wide as its contents. */
  lemma ReturnExactlyWhenWide(buf: string, m: int, fmt: string, args: seq<Arg>, text: (char, char, int) -> string)
    requires 0 <= m <= |buf| && Covered(fmt, args) && WellPrinted(text) && |Iso(fmt, args, text)| < 0x8000_0000
    ensures Vsnprintf(buf, m, fmt, args, text).1 == |Iso(fmt, args, text)| <==> Wide(fmt, args, text)
  {
    hide Items, Iso, Wide, Covered, WellPrinted, PaddedText, WriteItems, AllFit, Advance;
    FormatIsIso(fmt, args, text);
    var its := Items(fmt, 0, args, 0, text);
    ItemsLen(Paper(buf, 0), m, its);
    AdvanceIsPadded(its);
    SmallLen(Advance(its));
  }

  /** Then the buffer holds the ISO text, cut to str_m - 1 bytes, and its NUL. */
  lemma BufferIsIso(buf: string, m: int, fmt: string, args: seq<Arg>, text: (char, char, int) -> string)
    requires 0 < m <= |buf| && Covered(fmt, args) && WellPrinted(text) && |Iso(fmt, args, text)| < SIZE_MAX1
    requires Wide(fmt, args, text)
    ensures var iso := Iso(fmt, args, text); var r := Vsnprintf(buf, m, fmt, args, text).0;
      var n := if |iso| < m then |iso| else m - 1;
      r[..n] == iso[..n] && r[n] == '\0'
  {
    hide Items, Iso, Wide, Covered, WellPrinted, PaddedText, WriteItems, AllFit, Terminate;
    FormatIsIso(fmt, args, text);
    TerminatedPadded(buf, m, Items(fmt, 0, args, 0, text));
  }

  /** And a text without a NUL that has room comes out only then. */
  lemma BufferExactlyWhenWide(buf: string, m: int, fmt: string, args: seq<Arg>, text: (char, char, int) -> string)
    requires Covered(fmt, args) && WellPrinted(text) && |Iso(fmt, args, text)| < m <= |buf| && m < SIZE_MAX1
    requires '\0' !in Iso(fmt, args, text)
    ensures var iso := Iso(fmt, args, text); var r := Vsnprintf(buf, m, fmt, args, text).0;
      r[..|iso|] == iso <==> Wide(fmt, args, text)
  {
    hide Items, Iso, Wide, Covered, WellPrinted, PaddedText, WriteItems, AllFit, Vsnprintf, Advance;
    var iso, r := Iso(fmt, args, text), Vsnprintf(buf, m, fmt, args, text).0;
    if Wide(fmt, args, text) {
      BufferIsIso(buf, m, fmt, args, text);
      assert iso[..|iso|] == iso;
    } else {
      FormatIsIso(fmt, args, text);
      var its := Items(fmt, 0, args, 0, text);
      AdvanceIsPadded(its);
      EndsInside(buf, m, fmt, args, text);
      NotWrapped(Advance(its));
      var len := Advance(its);
      assert r[len] == '\0' && r[..|iso|][len] == r[len];
    }
  }

  /** A directive of nothing but a modifier and a conversion character. */
  lemma BareDirective(fmt: string, p: nat, args: seq<Arg>, k: nat)
    requires p < |fmt| && !IsoFlag(fmt[p]) && fmt[p] != '*' && fmt[p] != '.' && !IsDigit(fmt[p])
    ensures var m := IsoModifier(fmt, p);
      IsoDirective(fmt, p, args, k) == (Directive({}, 0, -1, m, Peek(fmt, p + |m|)), p + |m|, k)
  {
    assert fmt[p..p] == "" && FlagsEnd(fmt, p) == p;
    assert (set c | c in fmt[p..p]) == {};
    assert Accumulate(fmt, p, 0) == (0, p);
  }

  lemma BareSpec(fmt: string, p: nat, args: seq<Arg>, k: nat)
    requires p < |fmt| && !IsFlag(fmt[p]) && fmt[p] != '*' && fmt[p] != '.' && !IsDigit(fmt[p]) && fmt[p] != 'h' && fmt[p] != 'l'
    ensures ReadSpec(fmt, p, args, k) ==
      (Spec(NO_FLAGS, 0, false, 0, Synonym(fmt[p], '\0').1, Synonym(fmt[p], '\0').0), p, k)
  {
  }

  /** What comes back for a format whose items are known. */
  lemma ReturnOf(buf: string, m: int, fmt: string, args: seq<Arg>, text: (char, char, int) -> string, its: seq<Item>)
    requires 0 <= m <= |buf| && its == Items(fmt, 0, args, 0, text) && 0 <= Advance(its) < 0x8000_0000
    ensures Vsnprintf(buf, m, fmt, args, text).1 == Advance(its)
  {
    hide Items, WriteItems;
    ItemsLen(Paper(buf, 0), m, its);
    SmallLen(Advance(its));
  }

  /** The plainest case misses: "%s" alone has width 0, and every string makes the return value 0. */
  lemma PlainStringReturnsZero(buf: string, m: int, s: string, text: (char, char, int) -> string)
    requires 0 <= m <= |buf|
    ensures Vsnprintf(buf, m, "%s", [Str(s)], text).1 == 0
    ensures Iso("%s", [Str(s)], text) == s && Covered("%s", [Str(s)])
  {
    hide Vsnprintf, Items, Iso, Covered;
    PlainStringItems(s, text);
    var f := TextField(Spec(NO_FLAGS, 0, false, 0, '\0', 's'), s);
    assert [Converted(f)][1..] == [];
    ReturnOf(buf, m, "%s", [Str(s)], text, [Converted(f)]);
    PlainStringIso(s, text);
  }

  lemma PlainStringItems(s: string, text: (char, char, int) -> string)
    ensures Items("%s", 0, [Str(s)], 0, text) == [Converted(TextField(Spec(NO_FLAGS, 0, false, 0, '\0', 's'), s))]
  {
    var fmt, args := "%s", [Str(s)];
    var sp := Spec(NO_FLAGS, 0, false, 0, '\0', 's');
    BareSpec(fmt, 1, args, 0);
    assert ReadField(fmt, 1, sp, args, 0, text) == (TextField(sp, s), 1);
    assert Items(fmt, 2, args, 1, text) == [];
  }

  lemma PlainStringIso(s: string, text: (char, char, int) -> string)
    ensures Iso("%s", [Str(s)], text) == s && Covered("%s", [Str(s)])
  {
    var fmt, args := "%s", [Str(s)];
    BareDirective(fmt, 1, args, 0);
    var d := Directive({}, 0, -1, "", 's');
    assert IsoDirective(fmt, 1, args, 0) == (d, 1, 0);
    assert IsoPadded(d, Parts("", 0, s)) == s by {
      assert Repeat(' ', 0) + ("" + Repeat('0', 0) + s) == s;
    }
    assert IsoFrom(fmt, 2, args, 1, text) == "" && CoveredFrom(fmt, 2, args, 1);
    assert s + "" == s;
  }

  /** The length modifiers the program does not know. */
  predicate Unknown(m: string) {
    m == "hh" || m == "j" || m == "z" || m == "t" || m == "L"
  }

  /** The specification of an unknown modifier ends at its last character, which is
      taken for the conversion. */
  lemma UnknownRead(fmt: string, p: nat)
    requires p <= |fmt| && Unknown(IsoModifier(fmt, p))
    ensures var m := IsoModifier(fmt, p);
      var r := ReadModifier(fmt, p); r.1 == p + |m| - 1 && r.1 < |fmt| && fmt[r.1] == m[|m| - 1]
  {
  }

  lemma {:induction false} DigitsPlace(fmt: string, p: nat, acc: int, sum: nat)
    requires p <= |fmt|
    ensures ReadDigits(fmt, p, acc).1 == Accumulate(fmt, p, sum).1
    decreases |fmt| - p
  {
    if p < |fmt| && IsDigit(fmt[p]) {
      DigitsPlace(fmt, p + 1, (10 * acc + (fmt[p] - '0') as int) % UINT_MAX1, 10 * sum + (fmt[p] as int - '0' as int));
    }
  }

  /** Whatever the count is, both read on at the same place with the same argument. */
  lemma CountPlace(fmt: string, p: nat, args: seq<Arg>, k: nat)
    requires p <= |fmt|
    ensures var r, c := ReadCount(fmt, p, args, k), IsoCount(fmt, p, args, k); r.1 == c.1 && r.2 == c.2
  {
    DigitsPlace(fmt, p, 0, 0);
  }

  lemma UnknownSpec(fmt: string, p: nat, args: seq<Arg>, k: nat)
    requires p <= |fmt| && Unknown(IsoDirective(fmt, p, args, k).0.modifier)
    ensures var (d, at, k1) := IsoDirective(fmt, p, args, k); var r := ReadSpec(fmt, p, args, k);
      && p < at && r.1 == at - 1 && r.2 == k1
      && fmt[r.1] == d.modifier[|d.modifier| - 1] && r.0.conv == fmt[r.1]
  {
    hide FlagsEnd, ReadFlags, IsoCount, ReadCount, IsoModifier, ReadModifier;
    var q := FlagsEnd(fmt, p);
    if Peek(fmt, q) == '\'' { NoQuote(fmt, p, args, k); }
    FlagsRead(fmt, p, NO_FLAGS);
    CountPlace(fmt, q, args, k);
    var (w, p2, k2) := IsoCount(fmt, q, args, k);
    if Peek(fmt, p2) == '.' && p2 < |fmt| { CountPlace(fmt, p2 + 1, args, k2); }
    var p3 := if Peek(fmt, p2) == '.' && p2 < |fmt| then IsoCount(fmt, p2 + 1, args, k2).1 else p2;
    UnknownRead(fmt, p3);
  }

  /** Wherever such a modifier stands, behind any flags, width and precision, its last
      character comes out as a field of width 0 and no argument is fetched: what
      follows is read from the conversion character on, as text, and every later
      conversion gets the argument before its own. */
  lemma UnknownModifierShifts(fmt: string, p: nat, args: seq<Arg>, k: nat, text: (char, char, int) -> string)
    requires p < |fmt| && fmt[p] == '%' && Unknown(IsoDirective(fmt, p + 1, args, k).0.modifier)
    ensures var (d, at, k1) := IsoDirective(fmt, p + 1, args, k);
      Items(fmt, p, args, k, text)
        == [Converted(Field([d.modifier[|d.modifier| - 1]], 0, 0, false, true, 0))] + Items(fmt, at, args, k1, text)
    ensures var (d, at, k1) := IsoDirective(fmt, p + 1, args, k); var iso := IsoPadded(d, IsoConverted(d, args, k1, text));
      at < |fmt| ==> IsoFrom(fmt, p, args, k, text) == iso + IsoFrom(fmt, at + 1, args, k1 + Takes(d.conv), text)
    ensures !CoveredFrom(fmt, p, args, k)
  {
    hide IsoDirective, IsoPadded, IsoConverted, Items, IsoFrom, CoveredFrom;
    UnknownItems(fmt, p, args, k, text);
    IsoOne(fmt, p, args, k, text);
    UnknownIsNotCovered(fmt, p, args, k);
  }

  lemma UnknownItems(fmt: string, p: nat, args: seq<Arg>, k: nat, text: (char, char, int) -> string)
    requires p < |fmt| && fmt[p] == '%' && Unknown(IsoDirective(fmt, p + 1, args, k).0.modifier)
    ensures var (d, at, k1) := IsoDirective(fmt, p + 1, args, k);
      Items(fmt, p, args, k, text)
        == [Converted(Field([d.modifier[|d.modifier| - 1]], 0, 0, false, true, 0))] + Items(fmt, at, args, k1, text)
  {
    hide IsoDirective, ReadSpec, ReadField;
    UnknownSpec(fmt, p + 1, args, k);
    var (sp, p1, k1) := ReadSpec(fmt, p + 1, args, k);
    UnknownField(fmt, p1, sp, args, k1, text);
  }

  predicate Supported(conv: char) {
    conv == '%' || conv == 'c' || conv == 's' || IsNumeric(conv)
  }

  lemma UnknownField(fmt: string, p: nat, sp: Spec, args: seq<Arg>, k: nat, text: (char, char, int) -> string)
    requires !Supported(sp.conv) && sp.width >= 0
    ensures ReadField(fmt, p, sp, args, k, text) == (Field(if p < |fmt| then [fmt[p]] else "", 0, 0, false, true, 0), k)
  {
  }

  /** Any character that is no conversion comes out itself, whatever flags, width and
      precision it has; it takes no argument. A format that ends first ends there. */
  lemma UnknownIsCopied(fmt: string, p: nat, args: seq<Arg>, k: nat, text: (char, char, int) -> string)
    requires p < |fmt| && fmt[p] == '%' && !Supported(ReadSpec(fmt, p + 1, args, k).0.conv)
    ensures var (sp, at, k1) := ReadSpec(fmt, p + 1, args, k);
      Items(fmt, p, args, k, text) ==
        if at < |fmt| then [Converted(Field([fmt[at]], 0, 0, false, true, 0))] + Items(fmt, at + 1, args, k1, text)
        else [Converted(Field("", 0, 0, false, true, 0))]
  {
    hide ReadSpec, ReadField;
    var (sp, at, k1) := ReadSpec(fmt, p + 1, args, k);
    UnknownField(fmt, at, sp, args, k1, text);
  }

  /** For %s, %c and %% the flags other than '-' and the modifier make no difference,
      and for the last two the precision does not either. */
  lemma TextIgnores(fmt: string, p: nat, sp: Spec, args: seq<Arg>, k: nat, text: (char, char, int) -> string)
    requires (sp.conv == 's' || sp.conv == 'c' || sp.conv == '%') && sp.width >= 0
    ensures var plain := Spec(Flags(false, sp.fl.left, false, true, false), sp.width, sp.precise && sp.conv == 's', sp.prec, '\0', sp.conv);
      ReadField(fmt, p, sp, args, k, text) == ReadField(fmt, p, plain, args, k, text)
    ensures var f := ReadField(fmt, p, sp, args, k, text).0; !f.zeroFill && f.zeros == 0 && f.left == sp.fl.left && f.width == sp.width
  {
  }

  /** The flag # makes no difference to %d and %u, nor '+' to %u, where ISO C leaves them undefined or without effect. */
  lemma AlternateIgnored(sp: Spec, n: int, text: (char, char, int) -> string)
    requires (sp.conv == 'd' || sp.conv == 'u') && sp.width >= 0
    ensures NumberField(sp, n, text) == NumberField(sp.(fl := sp.fl.(alt := false)), n, text)
    ensures sp.conv == 'u' ==> NumberField(sp, n, text) == NumberField(sp.(fl := sp.fl.(sign := false)), n, text)
  {
  }

  /** D, U and O are the long forms of d, u and o. */
  lemma LongForms(args: seq<Arg>, text: (char, char, int) -> string)
    ensures Items("%D", 0, args, 0, text) == Items("%ld", 0, args, 0, text)
    ensures Items("%U", 0, args, 0, text) == Items("%lu", 0, args, 0, text)
    ensures Items("%O", 0, args, 0, text) == Items("%lo", 0, args, 0, text)
  {
    hide Items;
    LongForm("%D", "%ld", 'd', args, text);
    LongForm("%U", "%lu", 'u', args, text);
    LongForm("%O", "%lo", 'o', args, text);
  }

  lemma LongForm(short: string, long: string, conv: char, args: seq<Arg>, text: (char, char, int) -> string)
    requires conv == 'd' || conv == 'u' || conv == 'o'
    requires short == ['%', if conv == 'd' then 'D' else if conv == 'u' then 'U' else 'O'] && long == ['%', 'l', conv]
    ensures Items(short, 0, args, 0, text) == Items(long, 0, args, 0, text)
  {
    hide NumberField;
    var sp := Spec(NO_FLAGS, 0, false, 0, 'l', conv);
    BareSpec(short, 1, args, 0);
    assert ReadSpec(long, 1, args, 0) == (sp, 2, 0);
    assert Items(short, 2, args, 1, text) == [] && Items(long, 3, args, 1, text) == [];
  }

  lemma IsoOne(fmt: string, p: nat, args: seq<Arg>, k: nat, text: (char, char, int) -> string)
    requires p < |fmt| && fmt[p] == '%'
    ensures var (d, at, k1) := IsoDirective(fmt, p + 1, args, k); var iso := IsoPadded(d, IsoConverted(d, args, k1, text));
      at < |fmt| ==> IsoFrom(fmt, p, args, k, text) == iso + IsoFrom(fmt, at + 1, args, k1 + Takes(d.conv), text)
  {
    hide IsoDirective, IsoPadded, IsoConverted;
  }

  lemma UnknownIsNotCovered(fmt: string, p: nat, args: seq<Arg>, k: nat)
    requires p < |fmt| && fmt[p] == '%' && Unknown(IsoDirective(fmt, p + 1, args, k).0.modifier)
    ensures !CoveredFrom(fmt, p, args, k)
  {
    hide IsoDirective, ReadSpec;
    UnknownSpec(fmt, p + 1, args, k);
  }

  /** So of "%zu", where ISO C asks for the number, one character comes out. */
  lemma SizeModifierIsUnknown(buf: string, m: int, n: int, text: (char, char, int) -> string)
    requires 0 <= m <= |buf|
    ensures Vsnprintf(buf, m, "%zu", [Num(n)], text).1 == 1
    ensures !Covered("%zu", [Num(n)])
  {
    hide Vsnprintf, Items, Covered;
    SizeItems(n, text);
    var its := [Converted(Field("z", 0, 0, false, true, 0)), Literal("u")];
    assert its[1..] == [Literal("u")] && its[1..][1..] == [];
    ReturnOf(buf, m, "%zu", [Num(n)], text, its);
    SizeIsNotCovered(n);
  }

  lemma SizeItems(n: int, text: (char, char, int) -> string)
    ensures Items("%zu", 0, [Num(n)], 0, text) == [Converted(Field("z", 0, 0, false, true, 0)), Literal("u")]
  {
    var fmt, args := "%zu", [Num(n)];
    BareSpec(fmt, 1, args, 0);
    assert ReadField(fmt, 1, Spec(NO_FLAGS, 0, false, 0, '\0', 'z'), args, 0, text) == (Field("z", 0, 0, false, true, 0), 0);
    SizeRest(fmt, args, text);
  }

  lemma SizeRest(fmt: string, args: seq<Arg>, text: (char, char, int) -> string)
    requires fmt == "%zu"
    ensures Items(fmt, 2, args, 0, text) == [Literal("u")]
  {
    assert Items(fmt, 3, args, 0, text) == [];
    assert NextPercent(fmt, 2) == 3 && fmt[2..3] == "u";
  }

  lemma SizeIsNotCovered(n: int)
    ensures !Covered("%zu", [Num(n)])
  {
    BareDirective("%zu", 1, [Num(n)], 0);
  }
}
