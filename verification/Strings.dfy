/** The std::string searches the other modules share; a search that finds
    nothing gives the length, in place of npos. */
module Strings {

  /** s.find(c, from). */
  function Find(s: string, c: char, from: nat): (i: nat)
    requires from <= |s|
    ensures from <= i <= |s| && (i < |s| ==> s[i] == c)
    ensures forall j | from <= j < i :: s[j] != c
    decreases |s| - from
  {
    if from == |s| || s[from] == c then from else Find(s, c, from + 1)
  }

  /** s.find_last_of(c), or -1. */
  function FindLast(s: string, c: char): (i: int)
    ensures -1 <= i < |s| && (i >= 0 ==> s[i] == c)
    ensures forall j | i < j < |s| :: s[j] != c
  {
    if s == [] then -1
    else if s[|s| - 1] == c then |s| - 1
    else FindLast(s[..|s| - 1], c)
  }

  /** A character that is not the one searched for can be left out. */
  lemma FindSkips(s: string, c: char, from: nat)
    requires from < |s| && s[from] != c
    ensures Find(s, c, from) == Find(s, c, from + 1)
  {
  }

  /** A search is decided by what it finds. */
  lemma FindIs(s: string, c: char, from: nat, i: nat)
    requires from <= i <= |s| && (i < |s| ==> s[i] == c) && forall j | from <= j < i :: s[j] != c
    ensures Find(s, c, from) == i
  {
  }

  /** Up to the first NUL, as a char* is read. */
  function CString(s: string): (r: string)
    ensures '\0' !in r && r <= s
  {
    s[..Find(s, '\0', 0)]
  }

  // ----- decimal numbers -----

  predicate IsDigit(c: char) { '0' <= c <= '9' }

  function DigitOf(n: int): char
    requires 0 <= n < 10
  {
    '0' + n as char
  }

  predicate AllDigits(s: string) {
    forall i | 0 <= i < |s| :: IsDigit(s[i])
  }

  function Decimal(n: nat): (s: string)
    ensures |s| > 0 && AllDigits(s)
  {
    if n < 10 then [DigitOf(n)] else Decimal(n / 10) + [DigitOf(n % 10)]
  }

  /** The number a run of digits stands for, leading zeros or not. */
  function ValueOf(s: string): (n: nat)
    requires AllDigits(s)
  {
    if s == "" then 0 else ValueOf(s[..|s| - 1]) * 10 + (s[|s| - 1] as int - '0' as int)
  }

  lemma {:induction false} DecimalValue(n: nat)
    ensures ValueOf(Decimal(n)) == n
  {
    var s := Decimal(n);
    if n >= 10 {
      DecimalValue(n / 10);
      assert s[..|s| - 1] == Decimal(n / 10);
    } else {
      assert s[..0] == "";
    }
  }

  /** No digits are spent on zeros in front. */
  lemma {:induction false} NoLeadingZero(n: nat)
    requires n > 0
    ensures Decimal(n)[0] != '0'
  {
    if n >= 10 { NoLeadingZero(n / 10); }
  }

  /** A larger number has no fewer digits. */
  lemma {:induction false} DecimalGrows(i: nat, n: nat)
    requires i <= n
    ensures |Decimal(i)| <= |Decimal(n)|
    decreases n
  {
    if i >= 10 { DecimalGrows(i / 10, n / 10); }
  }

  predicate AllZeros(s: string) {
    forall i | 0 <= i < |s| :: s[i] == '0'
  }

  /** Leading zeros do not change the number. */
  lemma {:induction false} ZerosValue(z: string, s: string)
    requires AllZeros(z) && AllDigits(s)
    ensures AllDigits(z + s) && ValueOf(z + s) == ValueOf(s)
    decreases |z| + |s|
  {
    if s == "" {
      assert z + s == z;
      if z != "" {
        assert z[..|z| - 1] + s == z[..|z| - 1];
        ZerosValue(z[..|z| - 1], s);
      }
    } else {
      assert (z + s)[..|z + s| - 1] == z + s[..|s| - 1];
      ZerosValue(z, s[..|s| - 1]);
    }
  }

  // ----- the order of std::string -----

  predicate Less(a: string, b: string) {
    b != "" && (a == "" || a[0] < b[0] || (a[0] == b[0] && Less(a[1..], b[1..])))
  }

  lemma {:induction false} LessTransitive(a: string, b: string, c: string)
    requires Less(a, b) && Less(b, c)
    ensures Less(a, c)
  {
    if a != "" && a[0] == b[0] && b[0] == c[0] { LessTransitive(a[1..], b[1..], c[1..]); }
  }

  lemma {:induction false} LessOneWay(a: string, b: string)
    requires Less(a, b)
    ensures !Less(b, a) && a != b
  {
    if a != "" && a[0] == b[0] { LessOneWay(a[1..], b[1..]); }
  }

  lemma NotBoth(a: string, b: string)
    ensures !(Less(a, b) && Less(b, a))
  {
    if Less(a, b) { LessOneWay(a, b); }
  }

  lemma {:induction false} LessPrefix(p: string, a: string, b: string)
    ensures Less(p + a, p + b) <==> Less(a, b)
  {
    if p == "" {
      assert p + a == a && p + b == b;
    } else {
      assert (p + a)[1..] == p[1..] + a && (p + b)[1..] == p[1..] + b;
      LessPrefix(p[1..], a, b);
    }
  }

  lemma {:induction false} LessExtends(a: string, b: string, x: string, y: string)
    requires |a| == |b| && Less(a, b)
    ensures Less(a + x, b + y)
  {
    assert (a + x)[0] == a[0] && (b + y)[0] == b[0];
    assert (a + x)[1..] == a[1..] + x && (b + y)[1..] == b[1..] + y;
    if a[0] == b[0] { LessExtends(a[1..], b[1..], x, y); }
  }

  /** Runs of digits that are equally long are in the order of their numbers. */
  lemma {:induction false} DigitsInOrder(a: string, b: string)
    requires AllDigits(a) && AllDigits(b) && |a| == |b|
    ensures ValueOf(a) < ValueOf(b) ==> Less(a, b)
    ensures ValueOf(a) == ValueOf(b) ==> a == b
    decreases |a|
  {
    if a != "" {
      var n := |a| - 1;
      DigitsInOrder(a[..n], b[..n]);
      assert a == a[..n] + [a[n]] && b == b[..n] + [b[n]];
      if ValueOf(a[..n]) < ValueOf(b[..n]) {
        LessExtends(a[..n], b[..n], [a[n]], [b[n]]);
      } else if ValueOf(a[..n]) == ValueOf(b[..n]) {
        LessPrefix(a[..n], [a[n]], [b[n]]);
      }
    }
  }

  // ----- splitting and joining -----

  /** The segments of s between delimiters. */
  function Segments(s: string, d: char): (segs: seq<string>)
    ensures |segs| > 0 && forall g | g in segs :: d !in g
    decreases |s|
  {
    var i := Find(s, d, 0);
    if i == |s| then [s] else [s[..i]] + Segments(s[i + 1..], d)
  }

  lemma SegmentsUnfold(s: string, d: char)
    ensures var i := Find(s, d, 0);
      Segments(s, d) == if i == |s| then [s] else [s[..i]] + Segments(s[i + 1..], d)
  {
    hide Find;
  }

  lemma OneSegment(s: string, d: char)
    requires d !in s
    ensures Segments(s, d) == [s]
  {
    FindIs(s, d, 0, |s|);
  }

  /** Any delimiter cuts the list of segments in two. */
  lemma {:induction false} SegmentsAt(s: string, d: char, b: nat)
    requires b < |s| && s[b] == d
    ensures Segments(s, d) == Segments(s[..b], d) + Segments(s[b + 1..], d)
    decreases |s|
  {
    hide Find, Segments;
    var i := Find(s, d, 0);
    SegmentsUnfold(s, d);
    if i == b {
      OneSegment(s[..b], d);
    } else {
      var t := s[i + 1..];
      SegmentsAt(t, d, b - i - 1);
      FindIs(s[..b], d, 0, i);
      SegmentsUnfold(s[..b], d);
      assert s[..b][..i] == s[..i] && s[..b][i + 1..] == t[..b - i - 1] && t[b - i..] == s[b + 1..];
    }
  }

  function Join(segs: seq<string>, d: char): string
    requires |segs| > 0
  {
    if |segs| == 1 then segs[0] else segs[0] + [d] + Join(segs[1..], d)
  }

  lemma {:induction false} JoinSegments(s: string, d: char)
    ensures Join(Segments(s, d), d) == s
    decreases |s|
  {
    var i := Find(s, d, 0);
    if i < |s| {
      JoinSegments(s[i + 1..], d);
      assert Segments(s, d)[1..] == Segments(s[i + 1..], d);
      assert s == s[..i] + [d] + s[i + 1..];
    }
  }

  lemma {:induction false} SegmentsJoin(segs: seq<string>, d: char)
    requires |segs| > 0 && forall g | g in segs :: d !in g
    ensures Segments(Join(segs, d), d) == segs
    decreases |segs|
  {
    var s := Join(segs, d);
    var n := |segs[0]|;
    assert segs[0] in segs;
    if |segs| == 1 {
      FindIs(s, d, 0, |s|);
    } else {
      assert s[..n] == segs[0] && s[n] == d && s[n + 1..] == Join(segs[1..], d);
      FindIs(s, d, 0, n);
      SegmentsJoin(segs[1..], d);
    }
  }

  /** StringUtil::split with its limit: the last segment may still hold delimiters. */
  function SplitSpec(s: string, d: char, max: int): (segs: seq<string>)
    ensures |segs| > 0
    decreases |s|
  {
    var i := Find(s, d, 0);
    if max <= 1 || i == |s| then [s] else [s[..i]] + SplitSpec(s[i + 1..], d, max - 1)
  }

  lemma SplitUnfold(s: string, d: char, max: int)
    ensures var i := Find(s, d, 0);
      SplitSpec(s, d, max) == if max <= 1 || i == |s| then [s] else [s[..i]] + SplitSpec(s[i + 1..], d, max - 1)
  {
    hide Find;
  }

  /** One segment further, inside the string. */
  lemma SplitFrom(s: string, d: char, left: nat, max: int)
    requires left <= |s|
    ensures var right := Find(s, d, left);
      SplitSpec(s[left..], d, max) ==
        if max <= 1 || right == |s| then [s[left..]] else [s[left..right]] + SplitSpec(s[right + 1..], d, max - 1)
  {
    hide Find;
    var right := Find(s, d, left);
    var t := s[left..];
    FindIs(t, d, 0, right - left);
    if right < |s| {
      assert t[..right - left] == s[left..right] && t[right - left + 1..] == s[right + 1..];
    }
  }

  lemma Regroup(a: seq<string>, x: string, b: seq<string>)
    ensures a + ([x] + b) == (a + [x]) + b
  {
  }

  method Split(s: string, d: char, max: int) returns (output: seq<string>, n: int)
    requires 0 <= max
    ensures output == SplitSpec(s, d, max) && n == |output|
  {
    hide Find, SplitSpec;
    var left := 0;
    output := [];
    var i := 1;
    while i < max
      invariant 0 <= left <= |s| && 1 <= i && |output| == i - 1
      invariant output + SplitSpec(s[left..], d, max - i + 1) == SplitSpec(s, d, max)
      decreases |s| - left
    {
      var right := Find(s, d, left);
      SplitFrom(s, d, left, max - i + 1);
      if right == |s| {
        break;
      }
      Regroup(output, s[left..right], SplitSpec(s[right + 1..], d, max - i));
      output := output + [s[left..right]];
      left := right + 1;
      i := i + 1;
    }
    SplitFrom(s, d, left, max - i + 1);
    output := output + [s[left..]];
    n := i;
  }

  /** Joining gives the string back whatever the limit; the limit is kept unless
      it is 0, and without one in the way every segment is free of delimiters. */
  lemma {:induction false} SplitParts(s: string, d: char, max: int)
    requires 0 <= max
    ensures var segs := SplitSpec(s, d, max);
      && Join(segs, d) == s
      && (|segs| <= max <==> max >= 1)
      && (forall i | 0 <= i < |segs| - 1 :: d !in segs[i])
      && (|segs| < max ==> segs == Segments(s, d))
    decreases |s|
  {
    hide Find, Segments, SplitSpec;
    var i := Find(s, d, 0);
    SegmentsUnfold(s, d);
    SplitUnfold(s, d, max);
    if max > 1 && i < |s| {
      SplitParts(s[i + 1..], d, max - 1);
      assert SplitSpec(s, d, max)[1..] == SplitSpec(s[i + 1..], d, max - 1);
      assert s == s[..i] + [d] + s[i + 1..];
    }
  }
}
