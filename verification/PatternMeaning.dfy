/** What single specifiers print, from the pattern to the text, and which patterns are refused. */
module PatternMeaning {
  import opened InputStream
  import opened Strings
  import opened PatternLayout
  import opened PatternPrinting

  // ----- the number in "%c{...}" -----

  lemma {:induction false} BlanksSkipped(t: string, p: nat, q: nat)
    requires p <= q <= |t| && forall i | p <= i < q :: IsBlank(t[i])
    ensures ScanNumber(t, p) == ScanNumber(t, q)
    decreases q - p
  {
    if p < q { BlanksSkipped(t, p + 1, q); }
  }

  /** Blanks, a minus sign, digits; what follows does not matter. */
  lemma PrecisionIs(blanks: string, neg: bool, k: nat, rest: string)
    requires k <= INT_MAX && (forall i | 0 <= i < |blanks| :: IsBlank(blanks[i])) && (rest != "" ==> !IsDigit(rest[0]))
    ensures var v: int := k; Precision(blanks + ((if neg then "-" else "") + (Decimal(k) + rest))) == if neg then -v else v
  {
    hide Decimal, ScanNumber;
    var tail := (if neg then "-" else "") + (Decimal(k) + rest);
    var t := blanks + tail;
    assert t[|blanks|..] == tail;
    BlanksSkipped(t, 0, |blanks|);
    ScanPrinted(t, |blanks|, neg, k, rest);
    DecimalValue(k);
  }

  /** What does not begin with a number gives 0. */
  lemma NoPrecision(specifier: string)
    requires specifier != "" && !IsBlank(specifier[0]) && specifier[0] != '-' && specifier[0] != '+' && !IsDigit(specifier[0])
    ensures Precision(specifier) == 0
  {
  }

  // ----- %c from the pattern to the text -----

  /** The name after as many dots from its end as there are segments wanted. */
  lemma LastSegmentsAre(name: string, k: nat)
    requires k > 0
    ensures var r := LastSegments(name, k);
      if Dots(name) < k then r == name
      else Dots(r) == k - 1 && exists before :: name == before + ("." + r)
  {
    hide Segments, Join;
    var segs := Segments(name, '.');
    if k < |segs| {
      var a, b := segs[..|segs| - k], segs[|segs| - k..];
      JoinSegments(name, '.');
      SegmentsJoin(b, '.');
      assert segs == a + b;
      JoinTwo(a, b);
      assert name == Join(a, '.') + ("." + Join(b, '.'));
    }
  }

  lemma {:induction false} JoinTwo(a: seq<string>, b: seq<string>)
    requires |a| > 0 && |b| > 0
    ensures Join(a + b, '.') == Join(a, '.') + ("." + Join(b, '.'))
    decreases |a|
  {
    assert (a + b)[1..] == a[1..] + b;
    if |a| == 1 {
      assert a[1..] + b == b;
    } else {
      JoinTwo(a[1..], b);
      assert a[0] + "." + (Join(a[1..], '.') + ("." + Join(b, '.'))) == (a[0] + "." + Join(a[1..], '.')) + ("." + Join(b, '.'));
    }
  }

  /** A pattern of one specifier without widths prints the text of its letter. */
  lemma OneSays(letter: char, postfix: string, braced: bool, e: Event)
    requires letter in LETTERS && '}' !in postfix && (!braced ==> postfix == "")
    ensures var t := "%" + ([letter] + Braces(braced, postfix));
      Parse(t).Parsed? && Texts(Parse(t).components, e) == LetterText(letter, postfix, e)
  {
    hide Parse, Texts, LetterText, Waits, Braces;
    var x := Specifier(0, 0, letter, postfix, braced);
    var t := "%" + ([letter] + Braces(braced, postfix));
    NoWidthsText();
    assert "" + ([letter] + Braces(braced, postfix)) == [letter] + Braces(braced, postfix);
    assert [x][1..] == [] && Print(x) == t && t + "" == t && PrintAll([x]) == t;
    NothingWaits(x);
    PrintedSays([x], e);
    assert Saying([x], e) == LetterText(letter, postfix, e) + "";
  }

  lemma NothingWaits(x: Piece)
    ensures forall i, j :: !Waits([x], i, j)
  {
  }

  /** "%c{k}" prints the last k segments of the category's name, unless that starts
      with a dot and has fewer than k dots. */
  lemma CategoryPrinted(k: nat, e: Event)
    requires k <= INT_MAX
    ensures Parse("%c{" + (Decimal(k) + "}")).Parsed?
    ensures Texts(Parse("%c{" + (Decimal(k) + "}")).components, e) == LastSegments(e.category, k)
      <==> !(e.category != "" && e.category[0] == '.' && k > Dots(e.category))
  {
    hide Parse, Texts, Decimal, LastSegments, CategoryText;
    var d := Decimal(k);
    NoBrace(d);
    OneSays('c', d, true, e);
    assert "%" + (['c'] + ("{" + (d + "}"))) == "%c{" + (d + "}");
    PrecisionIs("", false, k, "");
    assert "" + ("" + (d + "")) == d;
    PrecisionIsLastSegments(e.category, k);
  }

  lemma NoBrace(d: string)
    requires AllDigits(d)
    ensures '}' !in d
  {
  }

  /** "%c" prints the whole name. */
  lemma CategoryWhole(e: Event)
    ensures Parse("%c").Parsed? && Texts(Parse("%c").components, e) == e.category
  {
    hide Parse, Texts;
    OneSays('c', "", false, e);
    assert "%" + (['c'] + "") == "%c";
  }

  /** A width w asks for a field of |w| characters, on the left when it is negative; but
      the least int has no absolute value, and goes to size_t as it is. */
  lemma WidthIsAbsolute(w: int)
    requires -INT_MAX - 1 <= w <= INT_MAX
    ensures Magnitude(w) == if w == -INT_MAX - 1 then SIZE_T + w else if w < 0 then -w else w
  {
  }

  // ----- patterns that are refused -----

  /** The parser steps over printed pieces that a '%' follows. */
  lemma {:induction false} ReadUpTo(t: string, p: nat, xs: seq<Piece>, rest: string, st: State) returns (q: nat)
    requires p <= |t| && t[p..] == PrintAll(xs) + rest && Fits(xs) && rest != "" && rest[0] == '%'
    ensures forall x | x in xs :: WellFormed(x)
    ensures p <= q <= |t| && t[q..] == rest && ParseFrom(t, p, st) == ParseFrom(t, q, Build(st, xs))
    decreases |xs|
  {
    hide Print, PrintAll, Fits, WellFormed, ParseFrom, Steps, BuildOne;
    FitsAreWellFormed(xs);
    if xs == [] {
      NothingPrinted(rest);
      q := p;
    } else {
      var more := PrintAll(xs[1..]) + rest;
      FirstPrinted(xs, rest);
      PieceRead(t, p, xs[0], more, st);
      var q0 :| Steps(t, p, q0, xs[0], more, st);
      StepGoes(t, p, q0, xs[0], more, st);
      q := ReadUpTo(t, q0, xs[1..], rest, BuildOne(st, xs[0]));
    }
  }

  lemma NothingPrinted(rest: string)
    ensures PrintAll([]) + rest == rest
  {
  }

  lemma FirstPrinted(xs: seq<Piece>, rest: string)
    requires xs != [] && Fits(xs) && rest != "" && rest[0] == '%'
    ensures var more := PrintAll(xs[1..]) + rest;
      && PrintAll(xs) + rest == Print(xs[0]) + more && WellFormed(xs[0]) && Fits(xs[1..])
      && (!xs[0].Plain? && !xs[0].braced ==> !StartsWithBrace(more))
  {
    hide Print, WellFormed;
    assert (Print(xs[0]) + PrintAll(xs[1..])) + rest == Print(xs[0]) + (PrintAll(xs[1..]) + rest);
  }

  lemma StepGoes(t: string, p: nat, q: nat, x: Piece, rest: string, st: State)
    requires Steps(t, p, q, x, rest, st)
    ensures p <= q <= |t| && t[q..] == rest && WellFormed(x) && ParseFrom(t, p, st) == ParseFrom(t, q, BuildOne(st, x))
  {
    hide ParseFrom, BuildOne, WellFormed;
  }

  /** Behind any printed pieces, widths and a letter that is not known are refused with that letter. */
  lemma UnknownIsRefused(xs: seq<Piece>, min: int, max: nat, letter: char, more: string)
    requires Fits(xs) && -INT_MAX - 1 <= min <= INT_MAX && max < SIZE_T
    requires letter != '%' && letter != 'n' && letter !in LETTERS && !IsDigit(letter) && letter != '-' && letter != '.'
    ensures forall x | x in xs :: WellFormed(x)
    ensures Parse(PrintAll(xs) + ("%" + (MinText(min) + (MaxText(max) + ([letter] + more)))))
      == Failed(UnknownConversion(letter), Build(State([], "", 0, 0), xs).components)
  {
    hide Fits, Build, MinText, MaxText, WidthsAt, PostfixAt, WellFormed;
    var spec := MinText(min) + (MaxText(max) + ([letter] + more));
    var t := PrintAll(xs) + ("%" + spec);
    assert t[0..] == t;
    var q := ReadUpTo(t, 0, xs, "%" + spec, State([], "", 0, 0));
    var st := Build(State([], "", 0, 0), xs);
    Drop(t, q, "%", spec);
    assert t[q..][0] == '%';
    WidthsPrinted(t, q + 1, min, max, letter, more, st.min, st.max);
  }

  /** A pattern that ends behind a '%' or behind the widths of a specifier is unterminated. */
  lemma UnterminatedIsRefused(xs: seq<Piece>, min: int, max: nat)
    requires Fits(xs) && -INT_MAX - 1 <= min <= INT_MAX && max < SIZE_T
    ensures forall x | x in xs :: WellFormed(x)
    ensures Parse(PrintAll(xs) + ("%" + (MinText(min) + MaxText(max))))
      == Failed(Unterminated, Build(State([], "", 0, 0), xs).components)
  {
    hide Fits, Build, MinText, MaxText, WidthsAt, WellFormed;
    var spec := MinText(min) + MaxText(max);
    var t := PrintAll(xs) + ("%" + spec);
    assert t[0..] == t;
    var q := ReadUpTo(t, 0, xs, "%" + spec, State([], "", 0, 0));
    var st := Build(State([], "", 0, 0), xs);
    Drop(t, q, "%", spec);
    assert t[q..][0] == '%';
    WidthsToTheEnd(t, q + 1, min, max, st.min, st.max);
  }

  lemma WidthsToTheEnd(t: string, p: nat, min: int, max: nat, min0: int, max0: nat)
    requires p <= |t| && t[p..] == MinText(min) + MaxText(max) && -INT_MAX - 1 <= min <= INT_MAX && max < SIZE_T
    ensures WidthsAt(t, p, min0, max0) == NoWidths
  {
    hide IntAt, SizeAt, MinText, MaxText;
    NoWidthsText();
    if max != 0 {
      MaxTextBegins(max);
      MinPrinted(t, p, min, MaxText(max));
      MaxToTheEnd(t, p + |MinText(min)|, max);
    } else {
      assert MinText(min) + "" == MinText(min);
      MinToTheEnd(t, p, min);
    }
  }

  lemma MaxTextBegins(max: nat)
    requires max != 0
    ensures MaxText(max) != "" && MaxText(max)[0] == '.'
  {
  }

  lemma MinToTheEnd(t: string, p: nat, min: int)
    requires p <= |t| && t[p..] == MinText(min) && -INT_MAX - 1 <= min <= INT_MAX
    ensures if min == 0 then p == |t| else p < |t| && (t[p] == '-' || IsDigit(t[p])) && IntAt(t, p).next == |t|
  {
    hide Decimal, ScanNumber;
    if min != 0 {
      var n := if min < 0 then -min else min;
      assert t[p..] == (if min < 0 then "-" else "") + (Decimal(n) + "");
      ScanPrinted(t, p, min < 0, n, "");
      assert t[p] == t[p..][0];
    }
  }

  lemma MaxToTheEnd(t: string, q: nat, max: nat)
    requires q <= |t| && t[q..] == MaxText(max) && 0 < max < SIZE_T
    ensures q < |t| && t[q] == '.' && SizeAt(t, q + 1).next == |t|
  {
    hide Decimal, ScanNumber;
    assert t[q] == t[q..][0] && t[q + 1..] == "" + (Decimal(max) + "");
    ScanPrinted(t, q + 1, false, max, "");
  }

  /** So is one with a minus sign or a dot that no number follows. */
  lemma NoNumberIsRefused(xs: seq<Piece>, min: int, dot: bool, letter: char, more: string)
    requires Fits(xs) && -INT_MAX - 1 <= min <= INT_MAX && (!dot ==> min == 0)
    requires !IsDigit(letter) && !IsBlank(letter) && letter != '-' && letter != '+'
    ensures forall x | x in xs :: WellFormed(x)
    ensures Parse(PrintAll(xs) + ("%" + (MinText(min) + ([if dot then '.' else '-'] + ([letter] + more)))))
      == Failed(Unterminated, Build(State([], "", 0, 0), xs).components)
  {
    hide Fits, Build, MinText, MaxText, WidthsAt, WellFormed;
    var tail := [if dot then '.' else '-'] + ([letter] + more);
    var spec := MinText(min) + tail;
    var t := PrintAll(xs) + ("%" + spec);
    assert t[0..] == t;
    var q := ReadUpTo(t, 0, xs, "%" + spec, State([], "", 0, 0));
    var st := Build(State([], "", 0, 0), xs);
    Drop(t, q, "%", spec);
    assert t[q..][0] == '%';
    NoWidthsText();
    if dot {
      DotAlone(t, q + 1, min, letter, more, st.min, st.max);
    } else {
      assert "" + tail == tail;
      MinusAlone(t, q + 1, letter, more, st.min, st.max);
    }
  }

  lemma MinusAlone(t: string, p: nat, letter: char, more: string, min0: int, max0: nat)
    requires p <= |t| && t[p..] == "-" + ([letter] + more) && !IsDigit(letter)
    ensures WidthsAt(t, p, min0, max0) == NoWidths
  {
    assert t[p] == t[p..][0] && t[p + 1] == t[p..][1];
  }

  lemma DotAlone(t: string, p: nat, min: int, letter: char, more: string, min0: int, max0: nat)
    requires p <= |t| && t[p..] == MinText(min) + ("." + ([letter] + more)) && -INT_MAX - 1 <= min <= INT_MAX
    requires !IsDigit(letter) && !IsBlank(letter) && letter != '-' && letter != '+'
    ensures WidthsAt(t, p, min0, max0) == NoWidths
  {
    hide IntAt, MinText;
    NoWidthsText();
    var tail := "." + ([letter] + more);
    MinPrinted(t, p, min, tail);
    var q := p + |MinText(min)|;
    assert t[q] == t[q..][0] && t[q + 1] == t[q..][1];
  }

  /** And one with a width that is no int. */
  lemma TooWideIsRefused(xs: seq<Piece>, neg: bool, w: nat, letter: char, more: string)
    requires Fits(xs) && w > (if neg then INT_MAX + 1 else INT_MAX) && !IsDigit(letter)
    ensures forall x | x in xs :: WellFormed(x)
    ensures Parse(PrintAll(xs) + ("%" + ((if neg then "-" else "") + (Decimal(w) + ([letter] + more)))))
      == Failed(Unterminated, Build(State([], "", 0, 0), xs).components)
  {
    hide Fits, Build, WidthsAt, WellFormed, Decimal;
    var spec := (if neg then "-" else "") + (Decimal(w) + ([letter] + more));
    var t := PrintAll(xs) + ("%" + spec);
    assert t[0..] == t;
    var q := ReadUpTo(t, 0, xs, "%" + spec, State([], "", 0, 0));
    var st := Build(State([], "", 0, 0), xs);
    Drop(t, q, "%", spec);
    assert t[q..][0] == '%';
    WidthTooLarge(t, q + 1, neg, w, [letter] + more, st.min, st.max);
  }

  lemma WidthTooLarge(t: string, p: nat, neg: bool, w: nat, rest: string, min0: int, max0: nat)
    requires p <= |t| && t[p..] == (if neg then "-" else "") + (Decimal(w) + rest) && rest != "" && !IsDigit(rest[0])
    requires w > if neg then INT_MAX + 1 else INT_MAX
    ensures WidthsAt(t, p, min0, max0) == NoWidths
  {
    hide Decimal, ScanNumber, ValueOf;
    ScanPrinted(t, p, neg, w, rest);
    DecimalValue(w);
    assert t[p] == t[p..][0];
  }

  /** A negative maximal width is taken modulo 2 to the 64, so it cuts nothing. */
  lemma NegativeMaxWraps(t: string, p: nat, k: nat, rest: string)
    requires p <= |t| && t[p..] == "-" + (Decimal(k) + rest) && 0 < k < SIZE_T && (rest != "" ==> !IsDigit(rest[0]))
    ensures SizeAt(t, p) == Number(true, SIZE_T - k, p + 1 + |Decimal(k)|)
  {
    hide Decimal, ScanNumber, ValueOf;
    ScanPrinted(t, p, true, k, rest);
    DecimalValue(k);
  }
}
