/** What sections 7.19.6.1 and 7.19.6.12 of ISO/IEC 9899:1999 ask of a format, read
    and converted without looking at the program: flags as a set, counts without
    a limit, all length modifiers. */
module IsoFormat {
  import opened FormatSpec
  import opened Strings

  /** A conversion specification; a precision of -1 is none. */
  datatype Directive = Directive(flags: set<char>, width: int, prec: int, modifier: string, conv: char)

  predicate IsoFlag(c: char) {
    c == '-' || c == '+' || c == ' ' || c == '#' || c == '0'
  }

  function FlagsEnd(fmt: string, p: nat): (q: nat)
    requires p <= |fmt|
    ensures p <= q <= |fmt| && (q < |fmt| ==> !IsoFlag(fmt[q]))
    decreases |fmt| - p
  {
    if p < |fmt| && IsoFlag(fmt[p]) then FlagsEnd(fmt, p + 1) else p
  }

  /** A decimal integer, and where it ends. */
  function Accumulate(fmt: string, p: nat, acc: nat): (r: (nat, nat))
    requires p <= |fmt|
    ensures acc <= r.0 && p <= r.1 <= |fmt|
    decreases |fmt| - p
  {
    if p < |fmt| && IsDigit(fmt[p]) then Accumulate(fmt, p + 1, 10 * acc + (fmt[p] as int - '0' as int)) else (acc, p)
  }

  /** The k-th argument, where it is a number. */
  function Number(args: seq<Arg>, k: nat): int {
    if k < |args| && args[k].Num? then args[k].n else 0
  }

  function IsoCount(fmt: string, p: nat, args: seq<Arg>, k: nat): (r: (int, nat, nat))
    requires p <= |fmt|
    ensures p <= r.1 <= |fmt|
  {
    if Peek(fmt, p) == '*' && p < |fmt| then (Number(args, k), p + 1, k + 1)
    else var d := Accumulate(fmt, p, 0); (d.0, d.1, k)
  }

  function IsoModifier(fmt: string, p: nat): (m: string)
    requires p <= |fmt|
    ensures p + |m| <= |fmt|
  {
    var c, next := Peek(fmt, p), Peek(fmt, p + 1);
    if c == 'h' then if next == 'h' then "hh" else "h"
    else if c == 'l' then if next == 'l' then "ll" else "l"
    else if c == 'j' || c == 'z' || c == 't' || c == 'L' then [c]
    else ""
  }

  /** From just behind a '%': the specification, where its conversion character
      stands, and the next argument. */
  function IsoDirective(fmt: string, p: nat, args: seq<Arg>, k: nat): (r: (Directive, nat, nat))
    requires p <= |fmt|
    ensures p <= r.1 <= |fmt|
  {
    var q := FlagsEnd(fmt, p);
    var given := set c | c in fmt[p..q];
    var (w, p2, k2) := IsoCount(fmt, q, args, k);
    var dot := Peek(fmt, p2) == '.' && p2 < |fmt|;
    var (pr, p3, k3) := if dot then IsoCount(fmt, p2 + 1, args, k2) else (-1, p2, k2);
    var m := IsoModifier(fmt, p3);
    (Directive(if w < 0 then given + {'-'} else given, if w < 0 then -w else w, if pr < 0 then -1 else pr, m, Peek(fmt, p3 + |m|)),
     p3 + |m|, k3)
  }

  // ----- what one conversion gives -----

  /** The sign or base mark before the digits. */
  function IsoMark(d: Directive, n: int): string {
    if d.conv == 'd' || d.conv == 'i' then
      if n < 0 then "-" else if '+' in d.flags then "+" else if ' ' in d.flags then " " else ""
    else if '#' in d.flags && n != 0 && (d.conv == 'x' || d.conv == 'X') then ['0', d.conv]
    else ""
  }

  function Modifier(m: string): char {
    if m == "h" then 'h' else if m == "l" || m == "ll" then 'l' else '\0'
  }

  /** What the system's sprintf writes for the number alone, without its minus sign. */
  function Digits(d: Directive, n: int, text: (char, char, int) -> string): string {
    var t := text(if d.conv == 'i' then 'd' else d.conv, Modifier(d.modifier), n);
    if t != "" && t[0] == '-' then t[1..] else t
  }

  /** A converted argument before it is padded: mark, zeros the precision asks for, the rest. */
  datatype Converted = Parts(mark: string, zeros: nat, rest: string) {
    function Len(): nat { |mark| + zeros + |rest| }
  }

  function IsoNumber(d: Directive, n: int, digits: string): Converted {
    var prec := if d.prec < 0 then 1 else d.prec;
    var shown := if prec == 0 && n == 0 then "" else digits;
    var zeros := if |shown| < prec then prec - |shown| else 0;
    var octal := d.conv == 'o' && '#' in d.flags && zeros == 0 && (shown == "" || shown[0] != '0');
    Parts(IsoMark(d, n), if octal then 1 else zeros, shown)
  }

  predicate Integral(c: char) {
    c == 'd' || c == 'i' || c == 'u' || c == 'o' || c == 'x' || c == 'X'
  }

  function IsoConverted(d: Directive, args: seq<Arg>, k: nat, text: (char, char, int) -> string): Converted {
    if d.conv == '%' then Parts("", 0, "%")
    else if d.conv == 'c' then Parts("", 0, [(Number(args, k) % 256) as char])
    else if d.conv == 's' then
      var s := if k < |args| && args[k].Str? then args[k].s else "";
      Parts("", 0, if 0 <= d.prec < |s| then s[..d.prec] else s)
    else if d.conv == 'p' then Parts("", 0, text('p', '\0', Number(args, k)))
    else IsoNumber(d, Number(args, k), Digits(d, Number(args, k), text))
  }

  /** Padded to the width: with zeros behind the mark where the flag 0 has its effect, else with blanks. */
  function IsoPadded(d: Directive, c: Converted): (s: string)
    ensures |s| == Max(d.width, c.Len())
  {
    var room := Max(0, d.width - c.Len());
    if '-' in d.flags then c.mark + Repeat('0', c.zeros) + c.rest + Repeat(' ', room)
    else if '0' in d.flags && d.prec < 0 && Integral(d.conv) then c.mark + Repeat('0', room + c.zeros) + c.rest
    else Repeat(' ', room) + (c.mark + Repeat('0', c.zeros) + c.rest)
  }

  // ----- whole formats -----

  /** How many arguments a conversion takes. */
  function Takes(conv: char): nat {
    if conv == '%' then 0 else 1
  }

  function IsoFrom(fmt: string, p: nat, args: seq<Arg>, k: nat, text: (char, char, int) -> string): string
    requires p <= |fmt|
    decreases |fmt| - p
  {
    if p == |fmt| then ""
    else if fmt[p] != '%' then [fmt[p]] + IsoFrom(fmt, p + 1, args, k, text)
    else
      var (d, at, k1) := IsoDirective(fmt, p + 1, args, k);
      var s := IsoPadded(d, IsoConverted(d, args, k1, text));
      if at == |fmt| then s else s + IsoFrom(fmt, at + 1, args, k1 + Takes(d.conv), text)
  }

  /** The text ISO C asks for. */
  function Iso(fmt: string, args: seq<Arg>, text: (char, char, int) -> string): string {
    IsoFrom(fmt, 0, args, 0, text)
  }

  /** Every field is at least as wide as its contents. */
  predicate WideFrom(fmt: string, p: nat, args: seq<Arg>, k: nat, text: (char, char, int) -> string)
    requires p <= |fmt|
    decreases |fmt| - p
  {
    if p == |fmt| then true
    else if fmt[p] != '%' then WideFrom(fmt, p + 1, args, k, text)
    else
      var (d, at, k1) := IsoDirective(fmt, p + 1, args, k);
      && IsoConverted(d, args, k1, text).Len() <= d.width
      && (at < |fmt| ==> WideFrom(fmt, at + 1, args, k1 + Takes(d.conv), text))
  }

  predicate Wide(fmt: string, args: seq<Arg>, text: (char, char, int) -> string) {
    WideFrom(fmt, 0, args, 0, text)
  }

  // ----- what is covered -----

  const INT_LIMIT: int := 0x7fff_ffff

  predicate IsNum(args: seq<Arg>, k: nat) {
    k < |args| && args[k].Num?
  }

  /** The number is one of the type that conversion and modifier name: short, int or long. */
  predicate OfType(d: Directive, n: int) {
    var half := if d.modifier == "" then 0x8000_0000 else if d.modifier == "h" then 0x8000 else 0x8000_0000_0000_0000;
    if d.conv == 'd' || d.conv == 'i' then -half <= n < half else 0 <= n < 2 * half
  }

  /** The conversions of the program, with nothing about them that ISO C leaves
      undefined: no floating point, no %n, no wide characters, the length modifiers
      h, l and ll, flags and precisions only where they mean something, and an
      argument of the right type. `p` is where the specification starts. */
  predicate CoveredDirective(d: Directive, p: nat, at: nat, args: seq<Arg>, k: nat) {
    && d.width <= INT_LIMIT && d.prec <= INT_LIMIT
    && if d.conv == '%' then at == p
       else if d.conv == 's' then
         d.modifier == "" && '#' !in d.flags && '0' !in d.flags && k < |args| && args[k].Str?
       else if d.conv == 'c' || d.conv == 'p' then
         d.modifier == "" && '#' !in d.flags && '0' !in d.flags && d.prec < 0 && IsNum(args, k)
       else
         && Integral(d.conv) && (d.modifier == "" || d.modifier == "h" || d.modifier == "l" || d.modifier == "ll")
         && IsNum(args, k) && ('#' in d.flags ==> d.conv == 'o' || d.conv == 'x' || d.conv == 'X')
         && OfType(d, args[k].n)
  }

  predicate CoveredFrom(fmt: string, p: nat, args: seq<Arg>, k: nat)
    requires p <= |fmt|
    decreases |fmt| - p
  {
    if p == |fmt| then true
    else if fmt[p] != '%' then CoveredFrom(fmt, p + 1, args, k)
    else
      var (d, at, k1) := IsoDirective(fmt, p + 1, args, k);
      at < |fmt| && CoveredDirective(d, p + 1, at, args, k1) && CoveredFrom(fmt, at + 1, args, k1 + Takes(d.conv))
  }

  predicate Covered(fmt: string, args: seq<Arg>) {
    CoveredFrom(fmt, 0, args, 0)
  }

  // ----- the system's sprintf -----

  predicate PlainDigits(t: string) {
    |t| > 0 && t[0] != '-' && !(|t| > 1 && t[0] == '0' && (t[1] == 'x' || t[1] == 'X'))
  }

  predicate Printed(conv: char, n: int, t: string) {
    if conv == 'd' && n < 0 then |t| > 0 && t[0] == '-' && PlainDigits(t[1..])
    else if conv == 'p' then PlainDigits(t) || (|t| > 2 && t[0] == '0' && (t[1] == 'x' || t[1] == 'X'))
    else PlainDigits(t)
  }

  /** A plain conversion writes a minus sign for negative numbers and digits that
      do not look like a sign or a base mark; a pointer is not just a mark. */
  ghost predicate WellPrinted(text: (char, char, int) -> string) {
    forall conv: char, modifier: char, n: int :: Printed(conv, n, text(conv, modifier, n))
  }

  /** Where the program does what ISO C asks for. */
  ghost predicate Faithful(fmt: string, args: seq<Arg>, text: (char, char, int) -> string) {
    Covered(fmt, args) && WellPrinted(text) && Wide(fmt, args, text)
  }
}
