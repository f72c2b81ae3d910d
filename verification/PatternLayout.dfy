/** PatternLayout: conversion patterns, the components they are parsed to, and
    the text a component gives for an event. */
module PatternLayout {
  import opened InputStream
  import opened Strings

  /** The parts of a LoggingEvent the components print, as strings; `stamp`
      stands for strftime with a given format. */
  datatype Event = Event(message: string, ndc: string, priority: string, thread: string, category: string,
                         clock: string, seconds: string, millis: string, stamp: string -> string)

  datatype Component =
    | Literal(text: string)
    | Message | Ndc | PriorityName | ThreadName | Clock | Seconds | Millis
    | CategoryName(specifier: string)
    | TimeStamp(format: string)
    | Modifier(inner: Component, minWidth: nat, maxWidth: nat, alignLeft: bool)

  // ----- one conversion specifier -----

  /** The widths, and where the conversion character stands. */
  datatype Widths = NoWidths | Widths(min: int, max: nat, at: nat)

  /** From just behind a '%'; what is not given stays as it was. */
  function WidthsAt(t: string, p: nat, min: int, max: nat): (w: Widths)
    requires p <= |t|
    ensures w.Widths? ==> p <= w.at < |t|
  {
    var a := if p < |t| && (t[p] == '-' || IsDigit(t[p])) then IntAt(t, p) else Number(true, min, p);
    if !a.ok || a.next == |t| then NoWidths
    else
      var b := if t[a.next] == '.' then SizeAt(t, a.next + 1) else Number(true, max, a.next);
      if !b.ok || b.next == |t| then NoWidths else Widths(a.value, b.value, b.next)
  }

  /** The "{...}" after a conversion character; a missing '}' takes all there is. */
  function PostfixAt(t: string, p: nat): (r: (string, nat))
    requires p <= |t|
    ensures p <= r.1 <= |t|
  {
    if p < |t| && t[p] == '{' then
      var j := Find(t, '}', p + 1);
      (t[p + 1..j], if j == |t| then j else j + 1)
    else ("", p)
  }

  const LETTERS: string := "mcdprRtux"

  /** The component a letter stands for; only %c and %d use what is in braces. */
  function Make(letter: char, postfix: string): Component
    requires letter in LETTERS
  {
    match letter
    case 'm' => Message
    case 'c' => CategoryName(postfix)
    case 'd' => TimeStamp(postfix)
    case 'p' => PriorityName
    case 'r' => Millis
    case 'R' => Seconds
    case 't' => ThreadName
    case 'u' => Clock
    case _ => Ndc
  }

  /** std::abs and the conversion to size_t, as they come out for every int. */
  function Magnitude(width: int): nat {
    if width == -INT_MAX - 1 then SIZE_T - INT_MAX - 1 else if width < 0 then -width else width
  }

  function Modified(c: Component, min: int, max: nat): Component {
    if min != 0 || max != 0 then Modifier(c, Magnitude(min), max, min < 0) else c
  }

  function Flushed(components: seq<Component>, literal: string): seq<Component> {
    if literal == "" then components else components + [Literal(literal)]
  }

  // ----- the parser as a function -----

  /** What is there while a pattern is read. */
  datatype State = State(components: seq<Component>, literal: string, min: int, max: nat)

  datatype Failure = Unterminated | UnknownConversion(letter: char)

  datatype Outcome = Parsed(components: seq<Component>) | Failed(failure: Failure, components: seq<Component>)

  /** A width that %% or %n was given waits for the next component. */
  function Add(st: State, w: Widths, letter: char, postfix: string): (r: State)
    requires w.Widths? && (letter == '%' || letter == 'n' || letter in LETTERS)
  {
    if letter == '%' then st.(literal := st.literal + "%", min := w.min, max := w.max)
    else if letter == 'n' then st.(literal := st.literal + "\n", min := w.min, max := w.max)
    else State(Flushed(st.components, st.literal) + [Modified(Make(letter, postfix), w.min, w.max)], "", 0, 0)
  }

  function ParseFrom(t: string, p: nat, st: State): Outcome
    requires p <= |t|
    decreases |t| - p
  {
    if p == |t| then Parsed(Flushed(st.components, st.literal))
    else if t[p] != '%' then ParseFrom(t, p + 1, st.(literal := st.literal + [t[p]]))
    else
      var w := WidthsAt(t, p + 1, st.min, st.max);
      if w.NoWidths? then Failed(Unterminated, st.components)
      else
        var letter := t[w.at];
        var (postfix, next) := PostfixAt(t, w.at + 1);
        if letter == '%' || letter == 'n' || letter in LETTERS then ParseFrom(t, next, Add(st, w, letter, postfix))
        else Failed(UnknownConversion(letter), st.components)
  }

  function Parse(t: string): Outcome {
    ParseFrom(t, 0, State([], "", 0, 0))
  }

  // ----- what a component prints -----

  function Spaces(n: nat): string {
    seq(n, i => ' ')
  }

  /** Cut to maxWidth unless that is 0, then filled up to minWidth. */
  function Fit(msg: string, min: nat, max: nat, left: bool): string {
    var cut := if 0 < max < |msg| then msg[..max] else msg;
    if min <= |cut| then cut
    else if left then cut + Spaces(min - |cut|)
    else Spaces(min - |cut|) + cut
  }

  /** The precision in "%c{...}"; -1 is no precision, and no number gives 0. (With
      blanks only, the source leaves it uninitialised; here it is 0 then too.) */
  function Precision(specifier: string): int {
    if specifier == "" then -1 else IntAt(specifier, 0).value
  }

  /** The last k segments of a dotted name; all of it when there are no more, or k is not positive. */
  function LastSegments(name: string, k: int): string {
    var segs := Segments(name, '.');
    if 0 < k < |segs| then Join(segs[|segs| - k..], '.') else name
  }

  /** What %c{k} prints. A name that starts with a dot sends the search round
      again from its end: with d dots, k turns do what (k - 1) % d + 1 turns do. */
  function CategoryText(name: string, k: int): string {
    if k > 0 && name != "" && name[0] == '.' then LastSegments(name, Round(k, Dots(name)))
    else LastSegments(name, k)
  }

  /** The k-th of 1, 2, ..., d, 1, 2, ... */
  function Round(k: int, d: int): (r: int)
    requires d > 0
    ensures 1 <= r <= d
  {
    (k - 1) % d + 1
  }

  function Dots(name: string): (d: nat)
    ensures name != "" && name[0] == '.' ==> d > 0
  {
    assert name != "" && name[0] == '.' ==> Find(name, '.', 0) == 0;
    |Segments(name, '.')| - 1
  }

  function Text(c: Component, e: Event): string {
    match c
    case Literal(t) => t
    case Message => e.message
    case Ndc => e.ndc
    case PriorityName => e.priority
    case ThreadName => e.thread
    case Clock => e.clock
    case Seconds => e.seconds
    case Millis => e.millis
    case CategoryName(s) => CategoryText(e.category, Precision(s))
    case TimeStamp(f) => e.stamp(f)
    case Modifier(inner, min, max, left) => Fit(Text(inner, e), min, max, left)
  }

  function Texts(cs: seq<Component>, e: Event): string {
    if cs == [] then "" else Texts(cs[..|cs| - 1], e) + Text(cs[|cs| - 1], e)
  }

  // ----- the precision of %c -----

  /** string::rfind(c, pos), with -1 for npos. */
  function RFind(s: string, c: char, pos: nat): (i: int)
    ensures -1 <= i < |s|
  {
    FindLast(if pos + 1 < |s| then s[..pos + 1] else s, c)
  }

  const NPOS: int := SIZE_T - 1

  /** The text from `begin` on has as many segments as i turns are to give. */
  ghost predicate Standing(name: string, begin: nat, i: int) {
    && i > 0 && 0 < begin <= |name| && name[begin - 1] == '.'
    && |Segments(name[begin..], '.')| == if name[0] == '.' then Round(i, Dots(name)) else i
  }

  lemma NextTurn(i: int, d: int)
    requires i > 0 && d > 0
    ensures Round(i + 1, d) == if Round(i, d) == d then 1 else Round(i, d) + 1
  {
    var q, r := (i - 1) / d, (i - 1) % d;
    assert i - 1 == d * q + r;
    if r == d - 1 {
      assert d * (q + 1) == d * q + d;
      Remainder(d, q + 1, 0);
    } else {
      Remainder(d, q, r + 1);
    }
  }

  lemma Remainder(d: int, q: int, r: int)
    requires 0 <= r < d
    ensures (d * q + r) % d == r
  {
    var m := (d * q + r) % d;
    var p := (d * q + r) / d;
    assert d * q + r == d * p + m;
    assert d * (q - p) == d * q - d * p == m - r;
    Multiple(d, q - p);
  }

  lemma Multiple(d: int, n: int)
    requires d > 0
    ensures (n >= 1 ==> d * n >= d) && (n <= -1 ==> d * n <= -d)
  {
  }

  /** A dot found, and the name is cut in two. */
  lemma Cut(name: string, b: nat)
    requires b < |name| && name[b] == '.'
    ensures Dots(name) + 1 == |Segments(name[..b], '.')| + |Segments(name[b + 1..], '.')|
    ensures name[b + 1..] == LastSegments(name, |Segments(name[b + 1..], '.')|)
  {
    var tail := Segments(name[b + 1..], '.');
    SegmentsAt(name, '.', b);
    JoinSegments(name[b + 1..], '.');
    var segs := Segments(name, '.');
    assert segs[|segs| - |tail|..] == tail;
  }

  /** From the end of s, the last dot. */
  lemma FromTheEnd(s: string)
    ensures var f := FindLast(s, '.');
      |Segments(if f < 0 then s else s[f + 1..], '.')| == 1
  {
    var f := FindLast(s, '.');
    OneSegment(if f < 0 then s else s[f + 1..], '.');
  }

  lemma FirstTurn(name: string)
    ensures var f := FindLast(name, '.');
      if f < 0 then forall k :: CategoryText(name, k) == name else Standing(name, f + 1, 1)
  {
    FromTheEnd(name);
  }

  /** Behind the first character there is nothing left of a leading dot: again from the end. */
  lemma WrapTurn(name: string, i: int)
    requires Standing(name, 1, i)
    ensures FindLast(name, '.') >= 0 && Standing(name, FindLast(name, '.') + 1, i + 1)
  {
    hide Segments, LastSegments, Round;
    Cut(name, 0);
    OneSegment("", '.');
    assert name[..0] == "";
    NextTurn(i, Dots(name));
    FromTheEnd(name);
  }

  lemma FurtherTurn(name: string, begin: nat, i: int, f: nat)
    requires Standing(name, begin, i) && begin > 1 && f == FindLast(name[..begin - 1], '.')
    ensures Standing(name, f + 1, i + 1)
  {
    hide Segments, LastSegments, Round, FindLast;
    var s := name[..begin - 1];
    FromTheEnd(s);
    assert s[..f] == name[..f] && name[f + 1..][..begin - 1 - (f + 1)] == s[f + 1..];
    assert name[f + 1..][begin - 1 - (f + 1) + 1..] == name[begin..];
    SegmentsAt(name[f + 1..], '.', begin - 1 - (f + 1));
    if name[0] == '.' {
      Cut(name, begin - 1);
      Cut(s, f);
      NextTurn(i, Dots(name));
    }
  }

  lemma NoTurn(name: string, begin: nat, i: int)
    requires Standing(name, begin, i) && begin > 1 && FindLast(name[..begin - 1], '.') < 0
    ensures forall k | k > i :: CategoryText(name, k) == name
  {
    hide Segments, LastSegments, Round, CategoryText;
    var s := name[..begin - 1];
    FromTheEnd(s);
    Cut(name, begin - 1);
    assert s[0] == name[0];
    forall k | k > i ensures CategoryText(name, k) == name { AllTaken(name, k); }
  }

  lemma LaterTurn(name: string, begin: nat, i: int)
    requires Standing(name, begin, i)
    ensures var f := FindLast(if begin == 1 then name else name[..begin - 1], '.');
      if f < 0 then forall k | k > i :: CategoryText(name, k) == name else Standing(name, f + 1, i + 1)
  {
    hide CategoryText, FindLast;
    if begin == 1 {
      WrapTurn(name, i);
    } else {
      var f := FindLast(name[..begin - 1], '.');
      if f >= 0 { FurtherTurn(name, begin, i, f); } else { NoTurn(name, begin, i); }
    }
  }

  lemma AllTaken(name: string, k: int)
    requires name == "" || name[0] != '.'
    requires |Segments(name, '.')| <= k
    ensures CategoryText(name, k) == name
  {
  }

  lemma EndOfTurns(name: string, begin: nat, i: int)
    requires Standing(name, begin, i)
    ensures name[begin..] == CategoryText(name, i)
  {
    hide Segments, Join, Round;
    Cut(name, begin - 1);
  }

  /** CategoryNameComponent::append, with size_t arithmetic. */
  method CategoryAppend(name: string, precision: int) returns (out: string)
    requires |name| < NPOS - 2
    ensures out == CategoryText(name, precision)
  {
    hide Segments, FindLast, CategoryText, Standing;
    if precision <= 0 { NoTurns(name, precision); }
    assert name[0..] == name;
    if precision == -1 {
      return name;
    }
    var begin := NPOS;
    var i := 0;
    while i < precision
      invariant if precision > 0 then 0 <= i <= precision else i == 0
      invariant if i == 0 then begin == NPOS else 0 < begin <= |name| && Standing(name, begin, i)
    {
      var found := RFind(name, '.', (begin + SIZE_T - 2) % SIZE_T);
      if i == 0 { FirstTurn(name); } else { LaterTurn(name, begin, i); }
      if found == -1 {
        begin := 0;
        break;
      }
      begin := found;
      begin := begin + 1;
      i := i + 1;
    }
    if begin == NPOS {
      begin := 0;
    } else if begin > 0 {
      EndOfTurns(name, begin, i);
    }
    out := name[begin..];
  }

  lemma NoTurns(name: string, k: int)
    requires k <= 0
    ensures CategoryText(name, k) == name
  {
  }

  lemma {:induction false} JoinTail(segs: seq<string>, m: nat)
    requires 0 < m < |segs|
    ensures |Join(segs[m..], '.')| < |Join(segs, '.')|
  {
    if m > 1 {
      JoinTail(segs[1..], m - 1);
      assert segs[1..][m - 1..] == segs[m..];
    }
  }

  /** %c{k} prints the last k segments of every name, except those that start
      with a dot and have fewer than k dots. */
  lemma PrecisionIsLastSegments(name: string, k: int)
    ensures CategoryText(name, k) == LastSegments(name, k) <==> !(name != "" && name[0] == '.' && k > Dots(name))
  {
    hide Join, Segments;
    if k > 0 && name != "" && name[0] == '.' {
      var d := Dots(name);
      if k > d {
        var segs := Segments(name, '.');
        JoinTail(segs, |segs| - Round(k, d));
        JoinSegments(name, '.');
      } else {
        Remainder(d, 0, k - 1);
      }
    }
  }

  // ----- printing components -----

  /** FormatModifierComponent::append, with size_t arithmetic. */
  method ModifierAppend(out: string, text: string, minWidth: nat, maxWidth: nat, alignLeft: bool) returns (r: string)
    requires minWidth < SIZE_T && |text| < SIZE_T
    ensures r == out + Fit(text, minWidth, maxWidth, alignLeft)
  {
    var msg := text;
    if maxWidth > 0 && maxWidth < |msg| {
      msg := msg[..maxWidth];
    }
    var fillCount := (minWidth - |msg| + SIZE_T) % SIZE_T;
    if minWidth > |msg| {
      if alignLeft {
        r := out + (msg + Spaces(fillCount));
      } else {
        r := out + (Spaces(fillCount) + msg);
      }
    } else {
      r := out + msg;
    }
  }

  /** A field is the start of the text, no longer than maxWidth, and blanks on
      one side up to minWidth; a text within both widths is left alone. */
  lemma FieldWidth(msg: string, min: nat, max: nat, left: bool) returns (cut: string, fill: string)
    ensures Fit(msg, min, max, left) == if left then cut + fill else fill + cut
    ensures cut <= msg && (max > 0 ==> |cut| <= max) && (cut == msg || |cut| == max)
    ensures (forall i | 0 <= i < |fill| :: fill[i] == ' ') && |fill| == if |cut| < min then min - |cut| else 0
  {
    cut := if 0 < max < |msg| then msg[..max] else msg;
    fill := if min <= |cut| then "" else Spaces(min - |cut|);
    assert cut + "" == cut && "" + cut == cut;
  }

  /** Every string here is short enough to be one. */
  ghost predicate Representable(c: Component, e: Event) {
    && |e.category| < NPOS - 2
    && (c.Modifier? ==> c.minWidth < SIZE_T && |Text(c.inner, e)| < SIZE_T && Representable(c.inner, e))
  }

  /** PatternComponent::append, for each kind of component. */
  method Append(out: string, c: Component, e: Event) returns (r: string)
    requires Representable(c, e)
    ensures r == out + Text(c, e)
    decreases c
  {
    match c
    case Modifier(inner, min, max, left) =>
      var msg := Append("", inner, e);
      assert "" + Text(inner, e) == Text(inner, e);
      r := ModifierAppend(out, msg, min, max, left);
    case CategoryName(specifier) =>
      var name := CategoryAppend(e.category, Precision(specifier));
      r := out + name;
    case _ =>
      r := out + Text(c, e);
  }

  class PatternLayout {
    var components: seq<Component>
    var conversionPattern: string

    /** The constructor sets the default pattern, "%m%n". */
    constructor ()
      ensures components == [Message, Literal("\n")] && conversionPattern == "%m%n"
    {
      components, conversionPattern := [], "";
      new;
      DefaultPattern();
      var _ := SetConversionPattern("%m%n");
    }

    method SetConversionPattern(pattern: string) returns (outcome: Outcome)
      modifies this
      ensures outcome == Parse(pattern) && components == outcome.components
      ensures conversionPattern == if outcome.Parsed? then pattern else ""
    {
      hide WidthsAt, PostfixAt, Make, Modified;
      var s, literal, minWidth, maxWidth := Stream(0, false, false), "", 0, 0;
      var ch: char := *;
      components, conversionPattern := [], "";
      var got := Get(pattern, s, ch);
      s, ch := got.0, got.1;
      while !s.fail
        invariant s.pos <= |pattern| && 0 <= maxWidth && conversionPattern == ""
        invariant !s.fail ==> !s.eof && s.pos > 0 && ch == pattern[s.pos - 1]
        invariant Parse(pattern) ==
          if s.fail then Parsed(Flushed(components, literal))
          else ParseFrom(pattern, s.pos - 1, State(components, literal, minWidth, maxWidth))
        decreases |pattern| - s.pos, if s.fail then 0 else 1
      {
        if ch == '%' {
          s, minWidth, maxWidth := ReadPrefix(pattern, s, minWidth, maxWidth);
          got := Get(pattern, s, ch);
          s, ch := got.0, got.1;
          if s.fail {
            return Failed(Unterminated, components);
          }
          var specPostfix;
          s, specPostfix := ReadPostfix(pattern, s);
          if ch == '%' {
            literal := literal + [ch];
          } else if ch == 'n' {
            literal := literal + "\n";
          } else if ch in LETTERS {
            var component := Make(ch, specPostfix);
            if literal != "" {
              components := components + [Literal(literal)];
              literal := "";
            }
            component := Modified(component, minWidth, maxWidth);
            minWidth, maxWidth := 0, 0;
            components := components + [component];
          } else {
            return Failed(UnknownConversion(ch), components);
          }
        } else {
          literal := literal + [ch];
        }
        got := Get(pattern, s, ch);
        s, ch := got.0, got.1;
      }
      if literal != "" {
        components := components + [Literal(literal)];
      }
      conversionPattern := pattern;
      return Parsed(components);
    }

    method Format(event: Event) returns (message: string)
      requires forall i | 0 <= i < |components| :: Representable(components[i], event)
      ensures message == Texts(components, event)
    {
      message := "";
      for i := 0 to |components|
        invariant message == Texts(components[..i], event)
      {
        assert components[..i + 1][..i] == components[..i];
        message := Append(message, components[i], event);
      }
      assert components[..|components|] == components;
    }
  }

  lemma DefaultPattern()
    ensures Parse("%m%n") == Parsed([Message, Literal("\n")])
  {
    var t := "%m%n";
    var st := State([Message], "", 0, 0);
    assert ParseFrom(t, 4, st.(literal := "\n")) == Parsed([Message] + [Literal("\n")]);
    assert Add(st, Widths(0, 0, 3), 'n', "") == st.(literal := "\n");
    assert ParseFrom(t, 2, st) == ParseFrom(t, 4, st.(literal := "\n"));
    assert Add(State([], "", 0, 0), Widths(0, 0, 1), 'm', "") == st;
  }

  /** The prefix of a specifier: unless it is the one meant, nothing can be read behind it. */
  method ReadPrefix(t: string, from: Stream, min: int, max: nat) returns (s: Stream, minWidth: int, maxWidth: nat)
    requires from.Good() && from.pos <= |t|
    ensures s.pos <= |t|
    ensures var w := WidthsAt(t, from.pos, min, max);
      if w.NoWidths? then s.fail || s.eof || s.pos == |t|
      else s == Stream(w.at, false, false) && minWidth == w.min && maxWidth == w.max
  {
    hide IntAt, SizeAt;
    s, minWidth, maxWidth := from, min, max;
    var ch2: char := *;
    var got := Get(t, s, ch2);
    s, ch2 := got.0, got.1;
    if ch2 == '-' || IsDigit(ch2) {
      s := Putback(t, s, ch2);
      var number := Extract(t, s, IntAt(t, s.pos), minWidth);
      s, minWidth := number.0, number.1;
      got := Get(t, s, ch2);
      s, ch2 := got.0, got.1;
    }
    if ch2 == '.' {
      var number := Extract(t, s, SizeAt(t, s.pos), maxWidth);
      s, maxWidth := number.0, number.1;
    } else {
      s := Putback(t, s, ch2);
    }
  }

  method ReadPostfix(t: string, from: Stream) returns (s: Stream, postfix: string)
    requires from.Good() && from.pos <= |t|
    ensures s.pos <= |t| && (postfix, s.pos) == PostfixAt(t, from.pos)
    ensures s.Good() || (s.fail && s.pos == |t|)
  {
    hide Find;
    s, postfix := from, "";
    var ch2: char := *;
    var got := Get(t, s, ch2);
    s, ch2 := got.0, got.1;
    if !s.fail {
      if ch2 == '{' {
        got := Get(t, s, ch2);
        s, ch2 := got.0, got.1;
        while !s.fail && ch2 != '}'
          invariant from.pos + 1 <= s.pos <= |t|
          invariant if s.fail then s.pos == |t| else !s.eof && s.pos > from.pos + 1 && ch2 == t[s.pos - 1]
          invariant var e := if s.fail then s.pos else s.pos - 1;
            postfix == t[from.pos + 1..e] && Find(t, '}', from.pos + 1) == Find(t, '}', e)
          decreases |t| - s.pos, if s.fail then 0 else 1
        {
          FindSkips(t, '}', s.pos - 1);
          postfix := postfix + [ch2];
          got := Get(t, s, ch2);
          s, ch2 := got.0, got.1;
        }
      } else {
        s := Putback(t, s, ch2);
      }
    }
  }
}
