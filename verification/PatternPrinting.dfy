/** A printer of conversion patterns, and the proof that setConversionPattern undoes it. */
module PatternPrinting {
  import opened InputStream
  import opened Strings
  import opened PatternLayout

  /** What a pattern is put together from: text without '%', and conversion
      specifiers, of which the letters '%' and 'n' stand for text as well. A width
      of 0 is not written. With `braced` a "{...}" is written, empty or not. */
  datatype Piece =
    | Plain(text: string)
    | Specifier(min: int, max: nat, letter: char, postfix: string, braced: bool)
  {
    predicate IsField() { Specifier? && letter in LETTERS }
  }

  predicate WellFormed(x: Piece) {
    match x
    case Plain(text) => '%' !in text
    case Specifier(min, max, letter, postfix, braced) =>
      && -INT_MAX - 1 <= min <= INT_MAX && max < SIZE_T
      && (letter == '%' || letter == 'n' || letter in LETTERS)
      && '}' !in postfix && (!braced ==> postfix == "")
  }

  function MinText(min: int): string {
    if min == 0 then "" else if min < 0 then "-" + Decimal(-min) else Decimal(min)
  }

  function MaxText(max: nat): string {
    if max == 0 then "" else "." + Decimal(max)
  }

  function Braces(braced: bool, postfix: string): string {
    if braced then "{" + (postfix + "}") else ""
  }

  function Print(x: Piece): string {
    match x
    case Plain(text) => text
    case Specifier(min, max, letter, postfix, braced) =>
      "%" + (MinText(min) + (MaxText(max) + ([letter] + Braces(braced, postfix))))
  }

  function PrintAll(xs: seq<Piece>): string {
    if xs == [] then "" else Print(xs[0]) + PrintAll(xs[1..])
  }

  predicate StartsWithBrace(s: string) {
    s != "" && s[0] == '{'
  }

  /** Nothing that ends without braces may be followed by one. */
  predicate Fits(xs: seq<Piece>) {
    xs == [] || (
      && WellFormed(xs[0])
      && (!xs[0].Plain? && !xs[0].braced ==> !StartsWithBrace(PrintAll(xs[1..])))
      && Fits(xs[1..]))
  }

  /** The components the pieces are meant to stand for: neighbouring literals are
      one, and a width belongs to its own specifier. */
  function Meant(st: State, xs: seq<Piece>): State
    requires forall x | x in xs :: WellFormed(x)
    decreases |xs|
  {
    if xs == [] then st else Meant(MeantOne(st, xs[0]), xs[1..])
  }

  function MeantOne(st: State, x: Piece): State
    requires WellFormed(x)
  {
    match x
    case Plain(text) => st.(literal := st.literal + text)
    case Specifier(min, max, letter, postfix, _) =>
      if letter == '%' then st.(literal := st.literal + "%")
      else if letter == 'n' then st.(literal := st.literal + "\n")
      else State(Flushed(st.components, st.literal) + [Modified(Make(letter, postfix), min, max)], "", 0, 0)
  }

  /** The components they do stand for: a width that text was given waits for the
      next field, unless one is given anew. */
  function Build(st: State, xs: seq<Piece>): State
    requires forall x | x in xs :: WellFormed(x)
    decreases |xs|
  {
    if xs == [] then st else Build(BuildOne(st, xs[0]), xs[1..])
  }

  function Given(own: int, waiting: int): int {
    if own != 0 then own else waiting
  }

  function BuildOne(st: State, x: Piece): State
    requires WellFormed(x)
  {
    match x
    case Plain(text) => st.(literal := st.literal + text)
    case Specifier(min, max, letter, postfix, _) =>
      if letter == '%' then st.(literal := st.literal + "%", min := Given(min, st.min), max := Given(max, st.max))
      else if letter == 'n' then st.(literal := st.literal + "\n", min := Given(min, st.min), max := Given(max, st.max))
      else
        State(Flushed(st.components, st.literal) + [Modified(Make(letter, postfix), Given(min, st.min), Given(max, st.max))], "", 0, 0)
  }

  lemma {:induction false} FitsAreWellFormed(xs: seq<Piece>)
    requires Fits(xs)
    ensures forall x | x in xs :: WellFormed(x)
  {
    if xs != [] { FitsAreWellFormed(xs[1..]); }
  }

  // ----- reading what was printed -----

  lemma Drop(t: string, p: nat, a: string, b: string)
    requires p <= |t| && t[p..] == a + b
    ensures p + |a| <= |t| && t[p..p + |a|] == a && t[p + |a|..] == b
  {
    assert t[p..][..|a|] == a && t[p..][|a|..] == b;
  }

  lemma {:induction false} DigitsEndIs(t: string, p: nat, q: nat)
    requires p <= q <= |t| && AllDigits(t[p..q]) && (q < |t| ==> !IsDigit(t[q]))
    ensures DigitsEnd(t, p) == q
    decreases q - p
  {
    if p < q {
      var s := t[p..q];
      assert s[1..] == t[p + 1..q] && IsDigit(s[0]);
      assert forall i | 0 <= i < |s[1..]| :: IsDigit(s[1..][i]);
      DigitsEndIs(t, p + 1, q);
    }
  }

  lemma ScanIs(t: string, p: nat, from: nat, to: nat)
    requires p <= from < to <= |t| && AllDigits(t[from..to]) && (to < |t| ==> !IsDigit(t[to]))
    requires from == p || (from == p + 1 && t[p] == '-')
    ensures ScanNumber(t, p) == Scan(from == p + 1, from, to)
  {
    DigitsEndIs(t, from, to);
    assert t[from] == t[from..to][0] && IsDigit(t[from..to][0]);
    assert BlanksEnd(t, p) == p;
  }

  lemma ScanPrinted(t: string, p: nat, neg: bool, n: nat, rest: string)
    requires p <= |t| && t[p..] == (if neg then "-" else "") + (Decimal(n) + rest) && (rest != "" ==> !IsDigit(rest[0]))
    ensures var s := ScanNumber(t, p);
      && s == Scan(neg, p + (if neg then 1 else 0), p + (if neg then 1 else 0) + |Decimal(n)|)
      && t[s.from..s.to] == Decimal(n)
  {
    hide Decimal;
    hide ScanNumber, DigitsEnd;
    var sign := if neg then "-" else "";
    var d := Decimal(n);
    Drop(t, p, sign, d + rest);
    var from := p + |sign|;
    Drop(t, from, d, rest);
    assert neg ==> t[p..p + 1][0] == sign[0];
    assert rest != "" ==> t[from + |d|..][0] == rest[0];
    ScanIs(t, p, from, from + |d|);
  }

  lemma MinPrinted(t: string, p: nat, min: int, rest: string)
    requires p <= |t| && t[p..] == MinText(min) + rest && rest != "" && !IsDigit(rest[0]) && rest[0] != '-'
    requires -INT_MAX - 1 <= min <= INT_MAX
    ensures if min == 0 then t[p] == rest[0]
      else (t[p] == '-' || IsDigit(t[p])) && IntAt(t, p) == Number(true, min, p + |MinText(min)|)
    ensures p + |MinText(min)| < |t| && t[p + |MinText(min)|..] == rest
  {
    hide Decimal;
    Drop(t, p, MinText(min), rest);
    if min != 0 {
      var n := if min < 0 then -min else min;
      var sign := if min < 0 then "-" else "";
      assert MinText(min) + rest == sign + (Decimal(n) + rest);
      ScanPrinted(t, p, min < 0, n, rest);
      DecimalValue(n);
      assert t[p] == MinText(min)[0];
    } else {
      assert t[p] == rest[0];
    }
  }

  lemma MaxPrinted(t: string, p: nat, max: nat, rest: string)
    requires p <= |t| && t[p..] == MaxText(max) + rest && rest != "" && !IsDigit(rest[0]) && rest[0] != '.'
    requires max < SIZE_T
    ensures if max == 0 then t[p] == rest[0]
      else t[p] == '.' && SizeAt(t, p + 1) == Number(true, max, p + |MaxText(max)|)
    ensures p + |MaxText(max)| < |t| && t[p + |MaxText(max)|..] == rest
  {
    hide Decimal;
    Drop(t, p, MaxText(max), rest);
    if max != 0 {
      assert MaxText(max) + rest == "." + (Decimal(max) + rest);
      Drop(t, p, ".", Decimal(max) + rest);
      assert "" + (Decimal(max) + rest) == Decimal(max) + rest;
      ScanPrinted(t, p + 1, false, max, rest);
      DecimalValue(max);
      assert t[p..][0] == '.';
    } else {
      assert t[p..][0] == rest[0];
    }
  }

  lemma WidthsPrinted(t: string, p: nat, min: int, max: nat, letter: char, rest: string, min0: int, max0: nat)
    requires p <= |t| && t[p..] == MinText(min) + (MaxText(max) + ([letter] + rest))
    requires -INT_MAX - 1 <= min <= INT_MAX && max < SIZE_T
    requires !IsDigit(letter) && letter != '-' && letter != '.'
    ensures var at := p + |MinText(min)| + |MaxText(max)|;
      WidthsAt(t, p, min0, max0) == Widths(Given(min, min0), Given(max, max0), at) && t[at] == letter && t[at + 1..] == rest
  {
    hide IntAt, SizeAt, MinText, MaxText;
    var tail := [letter] + rest;
    var middle := MaxText(max) + tail;
    MaxTextStart(max, tail);
    MinPrinted(t, p, min, middle);
    var q := p + |MinText(min)|;
    assert t[q..][0] == middle[0];
    MaxPrinted(t, q, max, tail);
    var at := q + |MaxText(max)|;
    Drop(t, at, [letter], rest);
    assert t[at..][0] == letter;
    NoWidthsText();
  }

  lemma MaxTextStart(max: nat, tail: string)
    requires tail != ""
    ensures MaxText(max) + tail != "" && (MaxText(max) + tail)[0] == if max == 0 then tail[0] else '.'
  {
  }

  lemma NoWidthsText()
    ensures MinText(0) == "" && MaxText(0) == ""
  {
  }

  lemma PostfixPrinted(t: string, p: nat, braced: bool, postfix: string, rest: string)
    requires p <= |t| && t[p..] == Braces(braced, postfix) + rest
    requires '}' !in postfix && (!braced ==> postfix == "" && !StartsWithBrace(rest))
    ensures PostfixAt(t, p) == (postfix, p + |Braces(braced, postfix)|) && t[p + |Braces(braced, postfix)|..] == rest
  {
    hide Find;
    Drop(t, p, Braces(braced, postfix), rest);
    if braced {
      var j := p + 1 + |postfix|;
      assert Braces(braced, postfix)[|postfix| + 1] == '}';
      assert t[p..p + |postfix| + 2][1..|postfix| + 1] == postfix;
      assert t[p + 1..j] == postfix;
      FindIs(t, '}', p + 1, j);
    } else if rest != "" {
      assert t[p..][0] == rest[0];
    }
  }

  lemma {:induction false} PlainRead(t: string, p: nat, text: string, rest: string, st: State)
    requires p <= |t| && t[p..] == text + rest && '%' !in text
    ensures p + |text| <= |t| && ParseFrom(t, p, st) == ParseFrom(t, p + |text|, st.(literal := st.literal + text))
    decreases |text|
  {
    if text == "" {
      assert st.literal + "" == st.literal;
    } else {
      assert text + rest == [text[0]] + (text[1..] + rest);
      Drop(t, p, [text[0]], text[1..] + rest);
      assert t[p..][0] == text[0];
      PlainRead(t, p + 1, text[1..], rest, st.(literal := st.literal + [text[0]]));
      assert st.literal + text == st.literal + [text[0]] + text[1..];
    }
  }

  /** A printed specifier is read as what it was. */
  lemma SpecifierRead(t: string, p: nat, min: int, max: nat, letter: char, postfix: string, braced: bool, rest: string, min0: int, max0: nat)
    requires p <= |t| && t[p..] == "%" + (MinText(min) + (MaxText(max) + ([letter] + (Braces(braced, postfix) + rest))))
    requires -INT_MAX - 1 <= min <= INT_MAX && max < SIZE_T
    requires letter == '%' || letter == 'n' || letter in LETTERS
    requires '}' !in postfix && (!braced ==> postfix == "" && !StartsWithBrace(rest))
    ensures var w := WidthsAt(t, p + 1, min0, max0);
      && t[p] == '%' && w.Widths? && w.min == Given(min, min0) && w.max == Given(max, max0) && t[w.at] == letter
      && PostfixAt(t, w.at + 1).0 == postfix && t[PostfixAt(t, w.at + 1).1..] == rest
  {
    hide WidthsAt, PostfixAt, Braces, MinText, MaxText;
    var tail := Braces(braced, postfix) + rest;
    Drop(t, p, "%", MinText(min) + (MaxText(max) + ([letter] + tail)));
    assert t[p..][0] == '%';
    WidthsPrinted(t, p + 1, min, max, letter, tail, min0, max0);
    PostfixPrinted(t, WidthsAt(t, p + 1, min0, max0).at + 1, braced, postfix, rest);
  }

  /** The parser steps over x, which starts at p, to q. */
  ghost predicate Steps(t: string, p: nat, q: nat, x: Piece, rest: string, st: State) {
    && p <= q <= |t| && t[q..] == rest && WellFormed(x)
    && ParseFrom(t, p, st) == ParseFrom(t, q, BuildOne(st, x))
  }

  lemma PlainStep(t: string, p: nat, text: string, rest: string, st: State)
    requires p <= |t| && t[p..] == text + rest && '%' !in text
    ensures Steps(t, p, p + |text|, Plain(text), rest, st)
  {
    PlainRead(t, p, text, rest, st);
    Drop(t, p, text, rest);
  }

  /** One specifier further. */
  lemma SpecifierStep(t: string, p: nat, st: State)
    requires p < |t| && t[p] == '%' && WidthsAt(t, p + 1, st.min, st.max).Widths?
    ensures var w := WidthsAt(t, p + 1, st.min, st.max); var letter := t[w.at]; var (postfix, next) := PostfixAt(t, w.at + 1);
      letter == '%' || letter == 'n' || letter in LETTERS ==>
        ParseFrom(t, p, st) == ParseFrom(t, next, Add(st, w, letter, postfix))
  {
    hide WidthsAt, PostfixAt, Add;
  }

  lemma PrintedStep(t: string, p: nat, x: Piece, rest: string, st: State)
    requires x.Specifier? && WellFormed(x) && (!x.braced ==> !StartsWithBrace(rest))
    requires p <= |t| && t[p..] == Print(x) + rest
    ensures exists q :: Steps(t, p, q, x, rest, st)
  {
    hide WidthsAt, PostfixAt, Braces, MinText, MaxText, Make, ParseFrom;
    var a, b, c, d := MinText(x.min), MaxText(x.max), [x.letter], Braces(x.braced, x.postfix);
    Associate(a, b, c, d, rest);
    SpecifierRead(t, p, x.min, x.max, x.letter, x.postfix, x.braced, rest, st.min, st.max);
    var q := PostfixAt(t, WidthsAt(t, p + 1, st.min, st.max).at + 1).1;
    SpecifierStep(t, p, st);
    assert Steps(t, p, q, x, rest, st);
  }

  lemma Associate(a: string, b: string, c: string, d: string, rest: string)
    ensures ("%" + (a + (b + (c + d)))) + rest == "%" + (a + (b + (c + (d + rest))))
  {
  }

  lemma PieceRead(t: string, p: nat, x: Piece, rest: string, st: State)
    requires p <= |t| && t[p..] == Print(x) + rest && WellFormed(x)
    requires !x.Plain? && !x.braced ==> !StartsWithBrace(rest)
    ensures exists q :: Steps(t, p, q, x, rest, st)
  {
    hide Steps, Braces, MinText, MaxText;
    match x
    case Plain(text) => PlainStep(t, p, text, rest, st);
    case Specifier(_, _, _, _, _) => PrintedStep(t, p, x, rest, st);
  }

  lemma {:induction false} AllRead(t: string, p: nat, xs: seq<Piece>, st: State)
    requires p <= |t| && t[p..] == PrintAll(xs) && Fits(xs)
    ensures forall x | x in xs :: WellFormed(x)
    ensures var r := Build(st, xs); ParseFrom(t, p, st) == Parsed(Flushed(r.components, r.literal))
    decreases |xs|
  {
    FitsAreWellFormed(xs);
    if xs != [] {
      hide Print, WellFormed;
      PieceRead(t, p, xs[0], PrintAll(xs[1..]), st);
      var q :| Steps(t, p, q, xs[0], PrintAll(xs[1..]), st);
      AllRead(t, q, xs[1..], BuildOne(st, xs[0]));
    }
  }

  function Built(xs: seq<Piece>): seq<Component>
    requires forall x | x in xs :: WellFormed(x)
  {
    var r := Build(State([], "", 0, 0), xs);
    Flushed(r.components, r.literal)
  }

  /** Parsing what was printed gives the components it stands for. */
  lemma ParsePrinted(xs: seq<Piece>)
    requires Fits(xs)
    ensures forall x | x in xs :: WellFormed(x)
    ensures Parse(PrintAll(xs)) == Parsed(Built(xs))
  {
    var t := PrintAll(xs);
    assert t[0..] == t;
    AllRead(t, 0, xs, State([], "", 0, 0));
  }

  // ----- widths that wait -----

  function MeantBy(xs: seq<Piece>): seq<Component>
    requires forall x | x in xs :: WellFormed(x)
  {
    var r := Meant(State([], "", 0, 0), xs);
    Flushed(r.components, r.literal)
  }

  predicate NoField(xs: seq<Piece>, i: int, j: int) {
    forall l | i < l < j && 0 <= l < |xs| :: !xs[l].IsField()
  }

  /** The text specifier i has a width that the next field, j, does not give itself. */
  predicate Waits(xs: seq<Piece>, i: int, j: int) {
    && 0 <= i < j < |xs| && xs[i].Specifier? && !xs[i].IsField() && xs[j].IsField() && NoField(xs, i, j)
    && Lacks(xs[j], xs[i].min, xs[i].max)
  }

  /** One of the widths is not 0, and the field does not give it. */
  predicate Lacks(x: Piece, min: int, max: int)
    requires x.Specifier?
  {
    (min != 0 && x.min == 0) || (max != 0 && x.max == 0)
  }

  /** Some width, those that wait already or one in xs, meets a field that lacks it. */
  predicate Meets(min: int, max: int, xs: seq<Piece>)
    decreases |xs|
  {
    if xs == [] then false
    else
      var x, rest := xs[0], xs[1..];
      if x.Plain? then Meets(min, max, rest)
      else if x.IsField() then Lacks(x, min, max) || Meets(0, 0, rest)
      else Meets(Given(x.min, min), Given(x.max, max), rest)
  }

  /** j is the first field, and lacks one of the widths. */
  predicate First(xs: seq<Piece>, j: int, min: int, max: int) {
    0 <= j < |xs| && xs[j].IsField() && NoField(xs, -1, j) && Lacks(xs[j], min, max)
  }

  /** A field that lacks what is given lacks one or the other. */
  lemma LacksGiven(y: Piece, x: Piece, min: int, max: int)
    requires y.Specifier? && x.Specifier?
    ensures Lacks(y, Given(x.min, min), Given(x.max, max)) ==> Lacks(y, x.min, x.max) || Lacks(y, min, max)
    ensures Lacks(y, x.min, x.max) || Lacks(y, min, max) ==> Lacks(y, Given(x.min, min), Given(x.max, max))
  {
  }

  /** Where a waiting width meets its field; i is -1 when it waited from the start. */
  lemma {:induction false} MeetsFound(min: int, max: int, xs: seq<Piece>) returns (i: int, j: int)
    requires Meets(min, max, xs)
    ensures if i == -1 then First(xs, j, min, max) else Waits(xs, i, j)
    decreases |xs|
  {
    hide First, Waits, Lacks, NoField;
    var x, rest := xs[0], xs[1..];
    if x.IsField() {
      if Lacks(x, min, max) {
        i, j := -1, 0;
        FirstShifts(xs, 0, min, max);
      } else {
        i, j := MeetsFound(0, 0, rest);
        if i == -1 { NothingLacks(rest, j); }
        WaitsIndex(rest, i, j);
        WaitsShifts(xs, i + 1, j + 1);
        i, j := i + 1, j + 1;
      }
    } else {
      var min1, max1 := if x.Plain? then min else Given(x.min, min), if x.Plain? then max else Given(x.max, max);
      i, j := MeetsFound(min1, max1, rest);
      j := j + 1;
      if i == -1 {
        FirstHas(rest, j - 1, min1, max1);
        if x.Specifier? && Lacks(rest[j - 1], x.min, x.max) {
          i := 0;
          FirstWith(rest, j - 1, min1, max1, x.min, x.max);
          WaitsFirst(xs, j);
        } else {
          if x.Specifier? { LacksGiven(rest[j - 1], x, min, max); }
          FirstWith(rest, j - 1, min1, max1, min, max);
          FirstShifts(xs, j, min, max);
        }
      } else {
        WaitsIndex(rest, i, j - 1);
        WaitsShifts(xs, i + 1, j);
        i := i + 1;
      }
    }
  }

  lemma NothingLacks(xs: seq<Piece>, j: int)
    ensures !First(xs, j, 0, 0)
  {
  }

  lemma FirstHas(xs: seq<Piece>, j: int, min: int, max: int)
    requires First(xs, j, min, max)
    ensures 0 <= j < |xs| && xs[j].IsField() && Lacks(xs[j], min, max)
  {
  }

  lemma FirstWith(xs: seq<Piece>, j: int, min: int, max: int, min2: int, max2: int)
    requires First(xs, j, min, max) && Lacks(xs[j], min2, max2)
    ensures First(xs, j, min2, max2)
  {
  }

  lemma {:induction false} FoundMeets(min: int, max: int, xs: seq<Piece>, i: int, j: int)
    requires if i == -1 then First(xs, j, min, max) else Waits(xs, i, j)
    ensures Meets(min, max, xs)
    decreases |xs|
  {
    hide First, Waits, Lacks, NoField;
    SomePieces(xs, i, j, min, max);
    var x, rest := xs[0], xs[1..];
    var min1 := if x.Plain? then min else if x.IsField() then 0 else Given(x.min, min);
    var max1 := if x.Plain? then max else if x.IsField() then 0 else Given(x.max, max);
    if i > 0 {
      WaitsShifts(xs, i, j);
      FoundMeets(min1, max1, rest, i - 1, j - 1);
    } else if i == 0 {
      WaitsFirst(xs, j);
      FirstHas(rest, j - 1, x.min, x.max);
      LacksGiven(rest[j - 1], x, min, max);
      FirstWith(rest, j - 1, x.min, x.max, min1, max1);
      FoundMeets(min1, max1, rest, -1, j - 1);
    } else {
      FirstShifts(xs, j, min, max);
      if !x.IsField() {
        FirstHas(rest, j - 1, min, max);
        if x.Specifier? { LacksGiven(rest[j - 1], x, min, max); }
        FirstWith(rest, j - 1, min, max, min1, max1);
        FoundMeets(min1, max1, rest, -1, j - 1);
      }
    }
  }

  lemma SomePieces(xs: seq<Piece>, i: int, j: int, min: int, max: int)
    requires if i == -1 then First(xs, j, min, max) else Waits(xs, i, j)
    ensures xs != [] && i >= -1
  {
  }

  lemma MeetsExactly(xs: seq<Piece>)
    ensures Meets(0, 0, xs) <==> exists i, j :: Waits(xs, i, j)
  {
    hide Meets, Waits, First;
    if Meets(0, 0, xs) {
      var i, j := MeetsFound(0, 0, xs);
      if i == -1 { NothingLacks(xs, j); }
    }
    if i, j :| Waits(xs, i, j) {
      WaitsIndex(xs, i, j);
      FoundMeets(0, 0, xs, i, j);
    }
  }

  lemma WaitsIndex(xs: seq<Piece>, i: int, j: int)
    requires Waits(xs, i, j)
    ensures i >= 0
  {
  }

  lemma FirstShifts(xs: seq<Piece>, j: int, min: int, max: int)
    requires xs != []
    ensures First(xs, j, min, max) <==> if xs[0].IsField() then j == 0 && Lacks(xs[0], min, max) else First(xs[1..], j - 1, min, max)
  {
    var rest := xs[1..];
    assert forall l | 0 <= l < |rest| :: rest[l] == xs[l + 1];
    if !xs[0].IsField() && 0 < j < |xs| { NoFieldShifts(xs, -1, j); }
  }

  lemma NoFieldShifts(xs: seq<Piece>, i: int, j: int)
    requires xs != [] && (i >= 0 || !xs[0].IsField()) && -1 <= i < j
    ensures NoField(xs, i, j) <==> NoField(xs[1..], i - 1, j - 1)
  {
    var rest := xs[1..];
    if NoField(xs, i, j) {
      forall l | i - 1 < l < j - 1 && 0 <= l < |rest| ensures !rest[l].IsField() { assert rest[l] == xs[l + 1]; }
    }
    if NoField(rest, i - 1, j - 1) {
      forall l | i < l < j && 0 <= l < |xs| ensures !xs[l].IsField() { assert l > 0 ==> xs[l] == rest[l - 1]; }
    }
  }

  lemma WaitsShifts(xs: seq<Piece>, i: int, j: int)
    requires xs != [] && i > 0
    ensures Waits(xs, i, j) <==> Waits(xs[1..], i - 1, j - 1)
  {
    if i < j < |xs| {
      NoFieldShifts(xs, i, j);
      assert xs[1..][i - 1] == xs[i] && xs[1..][j - 1] == xs[j];
    }
  }

  lemma WaitsFirst(xs: seq<Piece>, j: int)
    requires xs != []
    ensures Waits(xs, 0, j) <==> xs[0].Specifier? && !xs[0].IsField() && First(xs[1..], j - 1, xs[0].min, xs[0].max)
  {
    if 0 < j < |xs| {
      NoFieldShifts(xs, 0, j);
      assert xs[1..][j - 1] == xs[j];
    }
  }

  // ----- and what becomes of them -----

  lemma ModifiedDiffers(letter: char, postfix: string, min: int, max: nat, min2: int, max2: nat)
    requires letter in LETTERS && (min != min2 || max != max2)
    requires -INT_MAX - 1 <= min <= INT_MAX && -INT_MAX - 1 <= min2 <= INT_MAX
    ensures Modified(Make(letter, postfix), min, max) != Modified(Make(letter, postfix), min2, max2)
  {
  }

  lemma {:induction false} BuildExtends(st: State, xs: seq<Piece>)
    requires forall x | x in xs :: WellFormed(x)
    ensures st.components <= Build(st, xs).components && st.components <= Meant(st, xs).components
    decreases |xs|
  {
    if xs != [] {
      OneExtends(st, xs[0]);
      BuildExtends(BuildOne(st, xs[0]), xs[1..]);
      BuildExtends(MeantOne(st, xs[0]), xs[1..]);
    }
  }

  lemma OneExtends(st: State, x: Piece)
    requires WellFormed(x)
    ensures st.components <= BuildOne(st, x).components && st.components <= MeantOne(st, x).components
  {
  }

  /** Two states that differ at a component never come to the same result. */
  lemma StayDifferent(st: State, sm: State, xs: seq<Piece>, k: nat)
    requires forall x | x in xs :: WellFormed(x)
    requires k < |st.components| && k < |sm.components| && st.components[k] != sm.components[k]
    ensures var r, m := Build(st, xs), Meant(sm, xs); Flushed(r.components, r.literal) != Flushed(m.components, m.literal)
  {
    BuildExtends(st, xs);
    BuildExtends(sm, xs);
    var r, m := Build(st, xs), Meant(sm, xs);
    assert Flushed(r.components, r.literal)[k] == st.components[k];
    assert Flushed(m.components, m.literal)[k] == sm.components[k];
  }

  /** The state that carries widths, and the one that does not, but for those. */
  ghost predicate Alike(st: State, sm: State) {
    && st.components == sm.components && st.literal == sm.literal && sm.min == 0 && sm.max == 0
    && -INT_MAX - 1 <= st.min <= INT_MAX
  }

  lemma {:induction false} BuildIsMeant(st: State, sm: State, xs: seq<Piece>)
    requires (forall x | x in xs :: WellFormed(x)) && Alike(st, sm)
    ensures var r, m := Build(st, xs), Meant(sm, xs);
      Flushed(r.components, r.literal) == Flushed(m.components, m.literal) <==> !Meets(st.min, st.max, xs)
    decreases |xs|
  {
    hide Flushed, Make, Modified, Lacks;
    if xs != [] {
      var x, rest := xs[0], xs[1..];
      if x.IsField() && Lacks(x, st.min, st.max) {
        var st1, sm1 := BuildOne(st, x), MeantOne(sm, x);
        LacksMeans(x, st.min, st.max);
        ModifiedDiffers(x.letter, x.postfix, x.min, x.max, Given(x.min, st.min), Given(x.max, st.max));
        StayDifferent(st1, sm1, rest, |Flushed(st.components, st.literal)|);
      } else {
        if x.IsField() { LacksMeans(x, st.min, st.max); }
        BuildIsMeant(BuildOne(st, x), MeantOne(sm, x), rest);
      }
    }
  }

  lemma LacksMeans(x: Piece, min: int, max: int)
    requires x.Specifier?
    ensures Lacks(x, min, max) <==> Given(x.min, min) != x.min || Given(x.max, max) != x.max
  {
  }

  /** Parsing a printed list gives what was meant if and only if no width that text
      was given waits for a field which leaves that width out. */
  lemma CarriedExactly(xs: seq<Piece>)
    requires Fits(xs)
    ensures forall x | x in xs :: WellFormed(x)
    ensures Parse(PrintAll(xs)) == Parsed(MeantBy(xs)) <==> forall i, j :: !Waits(xs, i, j)
  {
    hide Parse, Build, Meant, Flushed, Waits, Meets, WellFormed;
    ParsePrinted(xs);
    BuildIsMeant(State([], "", 0, 0), State([], "", 0, 0), xs);
    MeetsExactly(xs);
  }

  // ----- what a printed pattern says -----

  /** What the documentation of setConversionPattern promises for each letter. */
  function LetterText(letter: char, postfix: string, e: Event): string
    requires letter in LETTERS
  {
    if letter == 'm' then e.message
    else if letter == 'c' then CategoryText(e.category, Precision(postfix))
    else if letter == 'd' then e.stamp(postfix)
    else if letter == 'p' then e.priority
    else if letter == 'r' then e.millis
    else if letter == 'R' then e.seconds
    else if letter == 't' then e.thread
    else if letter == 'u' then e.clock
    else e.ndc
  }

  lemma LettersAreKept(letter: char, postfix: string, e: Event)
    requires letter in LETTERS
    ensures Text(Make(letter, postfix), e) == LetterText(letter, postfix, e)
  {
  }

  /** The text of a piece for an event. */
  function Says(x: Piece, e: Event): string
    requires WellFormed(x)
  {
    match x
    case Plain(text) => text
    case Specifier(min, max, letter, postfix, _) =>
      if letter == '%' then "%"
      else if letter == 'n' then "\n"
      else
        var text := LetterText(letter, postfix, e);
        if min == 0 && max == 0 then text else Fit(text, Magnitude(min), max, min < 0)
  }

  function Saying(xs: seq<Piece>, e: Event): string
    requires forall x | x in xs :: WellFormed(x)
  {
    if xs == [] then "" else Says(xs[0], e) + Saying(xs[1..], e)
  }

  lemma TextsFlushed(cs: seq<Component>, literal: string, e: Event)
    ensures Texts(Flushed(cs, literal), e) == Texts(cs, e) + literal
  {
    TextsAdd(cs, Literal(literal), e);
  }

  lemma TextsAdd(cs: seq<Component>, c: Component, e: Event)
    ensures Texts(cs + [c], e) == Texts(cs, e) + Text(c, e)
  {
    assert (cs + [c])[..|cs|] == cs;
  }

  lemma MeantOneSays(st: State, x: Piece, e: Event)
    requires WellFormed(x)
    ensures var r := MeantOne(st, x);
      Texts(r.components, e) + r.literal == (Texts(st.components, e) + st.literal) + Says(x, e)
  {
    hide Text, Texts, Fit, Flushed, Make, LetterText;
    if x.IsField() {
      TextsFlushed(st.components, st.literal, e);
      var c := Modified(Make(x.letter, x.postfix), x.min, x.max);
      TextsAdd(Flushed(st.components, st.literal), c, e);
      ModifiedText(Make(x.letter, x.postfix), x.min, x.max, e);
      LettersAreKept(x.letter, x.postfix, e);
    } else {
      assert Texts(st.components, e) + (st.literal + Says(x, e)) == (Texts(st.components, e) + st.literal) + Says(x, e);
    }
  }

  lemma ModifiedText(c: Component, min: int, max: nat, e: Event)
    ensures Text(Modified(c, min, max), e) ==
      if min == 0 && max == 0 then Text(c, e) else Fit(Text(c, e), Magnitude(min), max, min < 0)
  {
  }

  lemma {:induction false} MeantSays(st: State, xs: seq<Piece>, e: Event)
    requires forall x | x in xs :: WellFormed(x)
    ensures var r := Meant(st, xs);
      Texts(r.components, e) + r.literal == (Texts(st.components, e) + st.literal) + Saying(xs, e)
    decreases |xs|
  {
    hide Texts, MeantOne, Says;
    if xs != [] {
      MeantOneSays(st, xs[0], e);
      MeantSays(MeantOne(st, xs[0]), xs[1..], e);
      var was := Texts(st.components, e) + st.literal;
      assert (was + Says(xs[0], e)) + Saying(xs[1..], e) == was + (Says(xs[0], e) + Saying(xs[1..], e));
    }
  }

  /** What a parsed pattern prints is the texts of its pieces, one after the
      other, as long as no width waits for a field. */
  lemma PrintedSays(xs: seq<Piece>, e: Event)
    requires Fits(xs) && forall i, j :: !Waits(xs, i, j)
    ensures forall x | x in xs :: WellFormed(x)
    ensures Parse(PrintAll(xs)).Parsed? && Texts(Parse(PrintAll(xs)).components, e) == Saying(xs, e)
  {
    hide Parse, Meant, Texts, Saying, Waits, Flushed;
    CarriedExactly(xs);
    var r := Meant(State([], "", 0, 0), xs);
    MeantSays(State([], "", 0, 0), xs, e);
    TextsFlushed(r.components, r.literal, e);
    NothingSays(e);
    assert "" + "" + Saying(xs, e) == Saying(xs, e);
  }

  lemma NothingSays(e: Event)
    ensures Texts([], e) == ""
  {
  }

  // ----- doubling percent signs -----

  function Double(s: string): string {
    if s == "" then "" else (if s[0] == '%' then "%%" else [s[0]]) + Double(s[1..])
  }

  /** How much of s one character of its doubled form uses up. */
  function Used(s: string): (n: nat)
    requires s != ""
    ensures 1 <= n <= |s|
  {
    if s[0] == '%' && |s| > 1 && s[1] == '{' then
      var j := Find(s, '}', 2);
      if j == |s| then j else j + 1
    else 1
  }

  /** What is left of s when its doubled form is a pattern. */
  function Left(s: string): string
    decreases |s|
  {
    if s == "" then "" else [s[0]] + Left(s[Used(s)..])
  }

  predicate BraceAt(s: string, i: int) {
    0 <= i < |s| - 1 && s[i] == '%' && s[i + 1] == '{'
  }

  lemma {:induction false} DoubleFind(t: string, p: nat, s: string, k: nat)
    requires p <= |t| && k <= |s| && t[p..] == Double(s[k..])
    ensures var j, m := Find(t, '}', p), Find(s, '}', k);
      if m == |s| then j == |t| else j < |t| && t[j + 1..] == Double(s[m + 1..])
    decreases |s| - k
  {
    hide Find, Double;
    if k == |s| {
      DoubleStep(s, k);
      assert t[p..] == "" && p == |t|;
    } else {
      var q := DoubleHead(t, p, s, k);
      if s[k] == '}' {
        FindIs(t, '}', p, p);
        FindIs(s, '}', k, k);
      } else {
        DoubleFind(t, q, s, k + 1);
        FindIs(t, '}', p, Find(t, '}', q));
        FindIs(s, '}', k, Find(s, '}', k + 1));
      }
    }
  }

  /** The doubled text begins with the first character, once or twice. */
  lemma DoubleHead(t: string, p: nat, s: string, k: nat) returns (q: nat)
    requires p <= |t| && k < |s| && t[p..] == Double(s[k..])
    ensures p < q <= |t| && t[q..] == Double(s[k + 1..])
    ensures q == p + (if s[k] == '%' then 2 else 1) && forall x | p <= x < q :: t[x] == s[k]
  {
    hide Double;
    DoubleStep(s, k);
    var first := if s[k] == '%' then "%%" else [s[k]];
    Drop(t, p, first, Double(s[k + 1..]));
    q := p + |first|;
    forall x | p <= x < q ensures t[x] == s[k] { assert t[x] == t[p..q][x - p]; }
  }

  lemma DoubleStep(s: string, k: nat)
    requires k <= |s|
    ensures Double(s[k..]) == if k == |s| then "" else (if s[k] == '%' then "%%" else [s[k]]) + Double(s[k + 1..])
  {
    if k < |s| { assert s[k..][1..] == s[k + 1..]; }
  }

  lemma {:induction false} DoubleRead(t: string, p: nat, s: string, literal: string)
    requires p <= |t| && t[p..] == Double(s)
    ensures ParseFrom(t, p, State([], literal, 0, 0)) == Parsed(Flushed([], literal + Left(s)))
    decreases |s|
  {
    hide Flushed, WidthsAt, PostfixAt, Used;
    if s == "" {
      assert literal + "" == literal;
    } else {
      var more := s[Used(s)..];
      assert literal + [s[0]] + Left(more) == literal + ([s[0]] + Left(more));
      if s[0] != '%' {
        Drop(t, p, [s[0]], Double(s[1..]));
        assert t[p..][0] == s[0];
        PlainUsed(s);
        DoubleRead(t, p + 1, more, literal + [s[0]]);
      } else {
        PercentStep(t, p, s, literal);
        DoubleRead(t, PostfixAt(t, p + 2).1, more, literal + "%");
      }
    }
  }

  lemma PlainUsed(s: string)
    requires s != "" && s[0] != '%'
    ensures Used(s) == 1
  {
  }

  lemma PercentStep(t: string, p: nat, s: string, literal: string)
    requires p <= |t| && t[p..] == Double(s) && s != "" && s[0] == '%'
    ensures p + 2 <= |t|
    ensures var q := PostfixAt(t, p + 2).1;
      && t[q..] == Double(s[Used(s)..])
      && ParseFrom(t, p, State([], literal, 0, 0)) == ParseFrom(t, q, State([], literal + "%", 0, 0))
  {
    hide ParseFrom, PostfixAt, Used;
    Drop(t, p, "%%", Double(s[1..]));
    assert t[p..][0] == '%' && t[p..][1] == '%';
    PercentRead(t, p, State([], literal, 0, 0));
    PercentRest(t, p, s);
  }

  lemma PercentRead(t: string, p: nat, st: State)
    requires p + 2 <= |t| && t[p] == '%' && t[p + 1] == '%' && st.min == 0 && st.max == 0
    ensures ParseFrom(t, p, st) == ParseFrom(t, PostfixAt(t, p + 2).1, st.(literal := st.literal + "%"))
  {
    assert WidthsAt(t, p + 1, 0, 0) == Widths(0, 0, p + 1);
  }

  /** Where reading goes on behind a doubled percent sign. */
  lemma PercentRest(t: string, p: nat, s: string)
    requires p + 2 <= |t| && s != "" && s[0] == '%' && t[p + 2..] == Double(s[1..])
    ensures t[PostfixAt(t, p + 2).1..] == Double(s[Used(s)..])
  {
    hide Find, Double;
    if |s| > 1 {
      var q := DoubleHead(t, p + 2, s, 1);
      assert t[p + 2] == s[1];
      if s[1] == '{' {
        DoubleFind(t, q, s, 2);
        DoubleStep(s, |s|);
      }
    } else {
      DoubleStep(s, 1);
    }
  }

  lemma {:induction false} LeftIsAll(s: string)
    ensures |Left(s)| <= |s|
    ensures Left(s) == s <==> forall i :: !BraceAt(s, i)
    decreases |s|
  {
    hide Find;
    if s != "" {
      assert s == [s[0]] + s[1..];
      LeftIsAll(s[Used(s)..]);
      if Used(s) > 1 {
        assert BraceAt(s, 0);
      } else {
        BraceShifts(s);
      }
    }
  }

  lemma BraceShifts(s: string)
    requires s != "" && !BraceAt(s, 0)
    ensures (forall i :: !BraceAt(s, i)) <==> (forall i :: !BraceAt(s[1..], i))
  {
    forall i ensures BraceAt(s[1..], i) ==> BraceAt(s, i + 1) {}
    forall i ensures BraceAt(s, i) ==> BraceAt(s[1..], i - 1) {}
  }

  /** Doubling percent signs keeps a text exactly when no "%{" stands in it. */
  lemma DoublingIsExact(s: string)
    ensures Parse(Double(s)) == Parsed(Flushed([], s)) <==> forall i :: !BraceAt(s, i)
  {
    hide ParseFrom, Left, Double, BraceAt;
    var t := Double(s);
    assert t[0..] == t && "" + Left(s) == Left(s);
    DoubleRead(t, 0, s, "");
    LeftIsAll(s);
    assert Flushed([], Left(s)) == Flushed([], s) ==> Left(s) == s by {
      if Left(s) != "" && s != "" {
        assert Flushed([], Left(s))[0] == Literal(Left(s)) && Flushed([], s)[0] == Literal(s);
      }
    }
  }

  // ----- every pattern has a printed form -----

  /** What a component without widths is written with. */
  function LetterOf(c: Component): char {
    match c
    case Message => 'm'
    case CategoryName(_) => 'c'
    case TimeStamp(_) => 'd'
    case PriorityName => 'p'
    case Millis => 'r'
    case Seconds => 'R'
    case ThreadName => 't'
    case Clock => 'u'
    case _ => 'x'
  }

  function PostfixOf(c: Component): string {
    match c
    case CategoryName(s) => s
    case TimeStamp(s) => s
    case _ => ""
  }

  function WidthOf(min: int, left: bool): int {
    if !left then min else if min == Magnitude(-INT_MAX - 1) then -INT_MAX - 1 else -min
  }

  function UnparseOne(c: Component): seq<Piece> {
    match c
    case Literal(text) => UnparseText(text)
    case Modifier(inner, min, max, left) => [Specifier(WidthOf(min, left), max, LetterOf(inner), PostfixOf(inner), true)]
    case _ => [Specifier(0, 0, LetterOf(c), PostfixOf(c), true)]
  }

  function UnparseText(text: string): seq<Piece> {
    if text == "" then [] else [if text[0] == '%' then Specifier(0, 0, '%', "", true) else Plain([text[0]])] + UnparseText(text[1..])
  }

  function Unparse(cs: seq<Component>): seq<Piece> {
    if cs == [] then [] else UnparseOne(cs[0]) + Unparse(cs[1..])
  }

  /** What the parser can build: a conversion, under widths that are not both 0 or bare. */
  predicate Bare(c: Component) {
    !c.Literal? && !c.Modifier? && '}' !in PostfixOf(c)
  }

  predicate Readable(c: Component) {
    match c
    case Literal(text) => text != ""
    case Modifier(inner, min, max, left) =>
      && Bare(inner) && (min != 0 || max != 0) && max < SIZE_T && (min == 0 ==> !left)
      && (min <= INT_MAX || (left && min == Magnitude(-INT_MAX - 1)))
    case _ => Bare(c)
  }

  predicate Canonical(cs: seq<Component>) {
    && (forall i | 0 <= i < |cs| :: Readable(cs[i]))
    && forall i | 0 < i < |cs| :: !(cs[i - 1].Literal? && cs[i].Literal?)
  }

  predicate EndsInField(cs: seq<Component>) {
    cs == [] || !cs[|cs| - 1].Literal?
  }

  lemma FieldIsReadable(letter: char, postfix: string, min: int, max: nat)
    requires letter in LETTERS && '}' !in postfix && -INT_MAX - 1 <= min <= INT_MAX && max < SIZE_T
    ensures var c := Modified(Make(letter, postfix), min, max); Readable(c) && !c.Literal?
  {
  }

  predicate GoodState(st: State) {
    Canonical(st.components) && EndsInField(st.components) && -INT_MAX - 1 <= st.min <= INT_MAX && st.max < SIZE_T
  }

  lemma FlushedIsCanonical(cs: seq<Component>, literal: string)
    requires Canonical(cs) && EndsInField(cs)
    ensures Canonical(Flushed(cs, literal))
  {
  }

  lemma WidthsFit(t: string, p: nat, min: int, max: nat)
    requires p <= |t| && -INT_MAX - 1 <= min <= INT_MAX && max < SIZE_T
    ensures var w := WidthsAt(t, p, min, max); w.Widths? ==> -INT_MAX - 1 <= w.min <= INT_MAX && w.max < SIZE_T
  {
    hide IntAt, SizeAt;
  }

  lemma AddIsGood(st: State, w: Widths, letter: char, postfix: string)
    requires GoodState(st) && w.Widths? && -INT_MAX - 1 <= w.min <= INT_MAX && w.max < SIZE_T && '}' !in postfix
    requires letter == '%' || letter == 'n' || letter in LETTERS
    ensures GoodState(Add(st, w, letter, postfix))
  {
    hide Make, Modified, Readable;
    if letter in LETTERS {
      FieldIsReadable(letter, postfix, w.min, w.max);
      FlushedIsCanonical(st.components, st.literal);
    }
  }

  lemma {:induction false} ParsedIsCanonical(t: string, p: nat, st: State)
    requires p <= |t| && GoodState(st)
    ensures var r := ParseFrom(t, p, st); r.Parsed? ==> Canonical(r.components)
    decreases |t| - p
  {
    hide WidthsAt, Canonical, EndsInField, Add, Find;
    if p == |t| {
      FlushedIsCanonical(st.components, st.literal);
    } else if t[p] != '%' {
      ParsedIsCanonical(t, p + 1, st.(literal := st.literal + [t[p]]));
    } else {
      var w := WidthsAt(t, p + 1, st.min, st.max);
      WidthsFit(t, p + 1, st.min, st.max);
      if w.Widths? {
        var letter := t[w.at];
        var (postfix, next) := PostfixAt(t, w.at + 1);
        if letter == '%' || letter == 'n' || letter in LETTERS {
          AddIsGood(st, w, letter, postfix);
          ParsedIsCanonical(t, next, Add(st, w, letter, postfix));
        }
      }
    }
  }

  // ----- and the pieces of components give the components -----

  predicate Braced(xs: seq<Piece>) {
    forall i | 0 <= i < |xs| :: WellFormed(xs[i]) && (xs[i].Plain? || xs[i].braced)
  }

  lemma {:induction false} BracedFits(xs: seq<Piece>)
    requires Braced(xs)
    ensures Fits(xs)
  {
    if xs != [] { BracedFits(xs[1..]); }
  }

  lemma {:induction false} TextIsBraced(text: string)
    ensures Braced(UnparseText(text))
  {
    if text != "" { TextIsBraced(text[1..]); }
  }

  lemma BareIsMade(c: Component)
    requires Bare(c)
    ensures LetterOf(c) in LETTERS && Make(LetterOf(c), PostfixOf(c)) == c
  {
  }

  /** x is the field c is printed as, and is read as c. */
  predicate Stands(x: Piece, c: Component) {
    && x.IsField() && WellFormed(x) && x.braced && UnparseOne(c) == [x]
    && Modified(Make(x.letter, x.postfix), x.min, x.max) == c
  }

  lemma FieldIsBack(c: Component)
    requires Readable(c) && !c.Literal?
    ensures exists x: Piece :: Stands(x, c)
  {
    var inner := if c.Modifier? then c.inner else c;
    BareIsMade(inner);
    var x := UnparseOne(c)[0];
    hide Make;
    assert UnparseOne(c) == [x];
    if c.Modifier? {
      assert Magnitude(x.min) == c.minWidth && (x.min < 0) == c.alignLeft;
    }
    assert Stands(x, c);
  }

  lemma {:induction false} UnparsedIsBraced(cs: seq<Component>)
    requires Canonical(cs)
    ensures Braced(Unparse(cs))
  {
    hide WellFormed, UnparseOne, UnparseText, Modified, Readable;
    if cs != [] {
      UnparsedIsBraced(cs[1..]);
      var c := cs[0];
      if c.Literal? { LiteralUnparse(c); TextIsBraced(c.text); } else { FieldIsBack(c); }
    }
  }

  lemma LiteralUnparse(c: Component)
    requires c.Literal?
    ensures UnparseOne(c) == UnparseText(c.text)
  {
  }

  lemma {:induction false} BuildText(st: State, text: string, rest: seq<Piece>)
    requires st.min == 0 && st.max == 0
    requires Braced(UnparseText(text) + rest) && Braced(rest)
    ensures Build(st, UnparseText(text) + rest) == Build(st.(literal := st.literal + text), rest)
    decreases |text|
  {
    if text == "" {
      assert UnparseText(text) + rest == rest && st.literal + "" == st.literal;
    } else {
      var xs := UnparseText(text) + rest;
      assert xs[1..] == UnparseText(text[1..]) + rest;
      assert BuildOne(st, xs[0]) == st.(literal := st.literal + [text[0]]);
      BuildText(st.(literal := st.literal + [text[0]]), text[1..], rest);
      assert st.literal + [text[0]] + text[1..] == st.literal + text;
    }
  }

  lemma BuildField(st: State, c: Component, rest: seq<Piece>)
    requires st.min == 0 && st.max == 0
    requires Readable(c) && !c.Literal? && Braced(UnparseOne(c) + rest) && Braced(rest)
    ensures Build(st, UnparseOne(c) + rest) == Build(State(Flushed(st.components, st.literal) + [c], "", 0, 0), rest)
  {
    hide Modified, Make, Flushed, Readable, UnparseOne;
    FieldIsBack(c);
    var xs := UnparseOne(c) + rest;
    assert xs[1..] == rest;
  }

  lemma {:induction false} BuildUnparsed(st: State, cs: seq<Component>)
    requires st.min == 0 && st.max == 0
    requires Canonical(cs) && Braced(Unparse(cs))
    requires st.literal == "" || cs == [] || !cs[0].Literal?
    ensures var r := Build(st, Unparse(cs)); Flushed(r.components, r.literal) == Flushed(st.components, st.literal) + cs
    decreases |cs|
  {
    hide Braced, UnparseOne, UnparseText, Readable;
    if cs != [] {
      var c, rest := cs[0], Unparse(cs[1..]);
      UnparsedIsBraced(cs[1..]);
      var st2;
      if c.Literal? {
        LiteralUnparse(c);
        BuildText(st, c.text, rest);
        st2 := st.(literal := st.literal + c.text);
        NotEmpty(c);
        assert "" + c.text == c.text;
      } else {
        BuildField(st, c, rest);
        st2 := State(Flushed(st.components, st.literal) + [c], "", 0, 0);
      }
      BuildUnparsed(st2, cs[1..]);
      assert Flushed(st2.components, st2.literal) == Flushed(st.components, st.literal) + [c];
      assert Flushed(st.components, st.literal) + cs == (Flushed(st.components, st.literal) + [c]) + cs[1..];
    }
  }

  lemma NotEmpty(c: Component)
    requires Readable(c) && c.Literal?
    ensures c.text != ""
  {
  }

  /** Every pattern that is accepted, however it was written, comes back when its
      components are printed and parsed again. */
  lemma EveryPatternReprints(t: string)
    ensures Parse(t).Parsed? ==> Parse(PrintAll(Unparse(Parse(t).components))) == Parse(t)
  {
    hide ParseFrom, Unparse, Build, PrintAll, Fits;
    ParsedIsCanonical(t, 0, State([], "", 0, 0));
    if Parse(t).Parsed? {
      var cs := Parse(t).components;
      var xs := Unparse(cs);
      UnparsedIsBraced(cs);
      BracedFits(xs);
      ParsePrinted(xs);
      BuildUnparsed(State([], "", 0, 0), cs);
      assert [] + cs == cs;
    }
  }

  /** A width in front of %% is not used there but by the next conversion. */
  lemma WidthIsCarried()
    ensures Parse("%5%%m") == Parsed([Literal("%"), Modifier(Message, 5, 0, false)])
  {
    var t := "%5%%m";
    hide ScanNumber;
    ScanIs(t, 1, 1, 2);
    assert t[1..2] == "5" && "5"[..0] == "" && ValueOf("5") == 5;
    assert WidthsAt(t, 1, 0, 0) == Widths(5, 0, 2);
    assert Add(State([], "", 0, 0), Widths(5, 0, 2), '%', "") == State([], "%", 5, 0);
    assert WidthsAt(t, 4, 5, 0) == Widths(5, 0, 4);
    assert Add(State([], "%", 5, 0), Widths(5, 0, 4), 'm', "") == State([Literal("%"), Modifier(Message, 5, 0, false)], "", 0, 0);
    assert ParseFrom(t, 3, State([], "%", 5, 0)) == Parsed([Literal("%"), Modifier(Message, 5, 0, false)]);
  }
}
