/** The formats "%<w>c" with one width and one conversion, worked out for every width. */
module WidthFormats {
  import opened FormatProofs
  import opened FormatSpec
  import opened IsoFormat
  import opened IsoProofs
  import opened Strings

  function UnderWidth(w: nat, conv: char): string {
    "%" + (Decimal(w) + [conv])
  }

  /** Digits are read from the front, by the program and by ISO C. */
  lemma {:induction false} DigitsGive(fmt: string, p: nat, q: nat)
    requires p <= q <= |fmt| && AllDigits(fmt[p..q])
    ensures Accumulate(fmt, p, 0) == Accumulate(fmt, q, ValueOf(fmt[p..q]))
    ensures ValueOf(fmt[p..q]) < UINT_MAX1 ==> ReadDigits(fmt, p, 0) == ReadDigits(fmt, q, ValueOf(fmt[p..q]))
    decreases q - p
  {
    if p < q {
      var front := fmt[p..q - 1];
      assert fmt[p..q][..q - p - 1] == front && fmt[p..q][q - p - 1] == fmt[q - 1];
      DigitsGive(fmt, p, q - 1);
      DigitStep(fmt, q - 1, ValueOf(front));
    }
  }

  lemma DigitStep(fmt: string, p: nat, acc: nat)
    requires p < |fmt| && IsDigit(fmt[p])
    ensures var more := acc * 10 + (fmt[p] as int - '0' as int);
      && Accumulate(fmt, p, acc) == Accumulate(fmt, p + 1, more)
      && (more < UINT_MAX1 ==> ReadDigits(fmt, p, acc) == ReadDigits(fmt, p + 1, more))
  {
    assert (fmt[p] - '0') as int == fmt[p] as int - '0' as int;
  }

  lemma WidthRead(w: nat, conv: char)
    requires 0 < w < UINT_MAX1 && !IsDigit(conv)
    ensures var fmt := UnderWidth(w, conv); var at := |Decimal(w)| + 1;
      && at + 1 == |fmt| && fmt[0] == '%' && IsDigit(fmt[1]) && fmt[1] != '0' && fmt[at] == conv
      && ReadDigits(fmt, 1, 0) == (w, at) && Accumulate(fmt, 1, 0) == (w, at)
  {
    hide Decimal, ValueOf;
    var d := Decimal(w);
    var fmt := UnderWidth(w, conv);
    assert fmt[1..|d| + 1] == d && fmt[1] == d[0];
    DecimalValue(w);
    NoLeadingZero(w);
    DigitsGive(fmt, 1, |d| + 1);
  }

  /** The conversions a width alone can stand in front of. */
  predicate Plain(conv: char) {
    conv == 's' || conv == 'd' || conv == 'u' || conv == 'c'
  }

  lemma WidthItems(w: nat, conv: char, args: seq<Arg>, text: (char, char, int) -> string)
    requires 0 < w < UINT_MAX1 && Plain(conv)
    ensures Items(UnderWidth(w, conv), 0, args, 0, text)
      == [Converted(ReadField([conv], 0, Spec(NO_FLAGS, w, false, 0, '\0', conv), args, 0, text).0)]
  {
    hide ReadDigits, UnderWidth;
    var fmt := UnderWidth(w, conv);
    WidthRead(w, conv);
    var sp := Spec(NO_FLAGS, w, false, 0, '\0', conv);
    var at := |Decimal(w)| + 1;
    assert ReadFlags(fmt, 1, NO_FLAGS) == (NO_FLAGS, 1);
    assert ReadSpec(fmt, 1, args, 0) == (sp, at, 0);
    OneItem(fmt, at, sp, args, text);
  }

  lemma OneItem(fmt: string, at: nat, sp: Spec, args: seq<Arg>, text: (char, char, int) -> string)
    requires 0 < at && at + 1 == |fmt| && fmt[0] == '%' && Plain(fmt[at]) && sp.conv == fmt[at] && sp.width >= 0
    requires ReadSpec(fmt, 1, args, 0) == (sp, at, 0)
    ensures Items(fmt, 0, args, 0, text) == [Converted(ReadField([fmt[at]], 0, sp, args, 0, text).0)]
  {
    hide ReadSpec, NumberField;
    var k := ReadField(fmt, at, sp, args, 0, text).1;
    assert Items(fmt, at + 1, args, k, text) == [];
  }

  lemma WidthDirective(w: nat, conv: char, args: seq<Arg>)
    requires 0 < w < UINT_MAX1 && Plain(conv)
    ensures IsoDirective(UnderWidth(w, conv), 1, args, 0) == (Directive({}, w, -1, "", conv), |Decimal(w)| + 1, 0)
  {
    hide Accumulate, UnderWidth;
    var fmt := UnderWidth(w, conv);
    WidthRead(w, conv);
    assert FlagsEnd(fmt, 1) == 1 && fmt[1..1] == "";
    assert (set c | c in fmt[1..1]) == {};
  }

  /** "%<w>d" is blanks and what the system writes for the number. */
  lemma NumberUnderWidth(w: nat, n: int, text: (char, char, int) -> string)
    requires 0 < w <= INT_LIMIT && -0x8000_0000 <= n < 0x8000_0000 && WellPrinted(text)
    ensures var t := text('d', '\0', n); var fmt := UnderWidth(w, 'd');
      && Covered(fmt, [Num(n)]) && Iso(fmt, [Num(n)], text) == Repeat(' ', w - |t|) + t
      && (Wide(fmt, [Num(n)], text) <==> |t| <= w)
  {
    hide IsoDirective, UnderWidth, WellPrinted, IsoPadded, IsoConverted;
    var fmt, args := UnderWidth(w, 'd'), [Num(n)];
    var t := text('d', '\0', n);
    WidthRead(w, 'd');
    WidthDirective(w, 'd', args);
    var d := Directive({}, w, -1, "", 'd');
    var at := |Decimal(w)| + 1;
    NumberConverted(w, n, text);
    assert IsoFrom(fmt, at + 1, args, 1, text) == "" && CoveredFrom(fmt, at + 1, args, 1) && WideFrom(fmt, at + 1, args, 1, text);
    assert CoveredDirective(d, 1, at, args, 0);
    var s := IsoPadded(d, IsoConverted(d, args, 0, text));
    assert s + "" == s;
  }

  lemma NumberConverted(w: nat, n: int, text: (char, char, int) -> string)
    requires WellPrinted(text)
    ensures var t := text('d', '\0', n); var d := Directive({}, w, -1, "", 'd'); var c := IsoConverted(d, [Num(n)], 0, text);
      c.Len() == |t| && IsoPadded(d, c) == Repeat(' ', w - |t|) + t
  {
    hide Repeat, IsoPadded;
    var t := text('d', '\0', n);
    assert Printed('d', n, t);
    var d := Directive({}, w, -1, "", 'd');
    var c := Parts(if n < 0 then "-" else "", 0, if n < 0 then t[1..] else t);
    assert IsoConverted(d, [Num(n)], 0, text) == c;
    BlanksInFront(d, c, t);
  }

  lemma BlanksInFront(d: Directive, c: Converted, t: string)
    requires d.flags == {} && d.width >= 0 && c.zeros == 0 && c.mark + c.rest == t
    ensures IsoPadded(d, c) == Repeat(' ', d.width - |t|) + t
  {
    assert c.mark + Repeat('0', 0) + c.rest == t;
    assert Repeat(' ', Max(0, d.width - |t|)) == Repeat(' ', d.width - |t|);
  }

  /** A NULL string, which ISO C leaves undefined, is written as blanks. */
  lemma NullUnderWidth(buf: string, m: int, w: nat, text: (char, char, int) -> string)
    requires 0 < w < m <= |buf| && w <= INT_LIMIT
    ensures var r := Vsnprintf(buf, m, UnderWidth(w, 's'), [NullStr], text);
      r.1 == w && r.0[..w] == Repeat(' ', w) && r.0[w] == '\0'
  {
    hide Items, WriteItems, UnderWidth, Terminate, Repeat;
    WidthItems(w, 's', [NullStr], text);
    var f := TextField(Spec(NO_FLAGS, w, false, 0, '\0', 's'), "");
    var its := [Converted(f)];
    assert its[1..] == [];
    BlanksOnly(f, w);
    assert PaddedField(f) + "" == PaddedField(f);
    TerminatedPadded(buf, m, its);
    ReturnOf(buf, m, UnderWidth(w, 's'), [NullStr], text, its);
  }

  lemma BlanksOnly(f: Field, w: nat)
    requires f == TextField(Spec(NO_FLAGS, w, false, 0, '\0', 's'), "")
    ensures PaddedField(f) == Repeat(' ', w)
  {
    assert f.text[..0] + Repeat('0', 0) + f.text[0..] == "";
    assert Repeat(' ', w) + "" == Repeat(' ', w);
  }
}
