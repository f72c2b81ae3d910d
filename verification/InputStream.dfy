/** A std::istringstream over a text, for the operations the readers use. Every
    character put back is the one just read, so badbit is never set. */
module InputStream {
  import opened Strings

  const INT_MAX: int := 0x7fff_ffff
  const SIZE_T: int := 0x1_0000_0000_0000_0000

  datatype Stream = Stream(pos: nat, eof: bool, fail: bool) {
    predicate Good() { !eof && !fail }
  }

  /** get(ch): a read that fails leaves ch as it was. */
  function Get(text: string, s: Stream, ch: char): (r: (Stream, char))
    requires s.pos <= |text|
    ensures s.pos <= r.0.pos <= |text|
  {
    if !s.Good() then (s.(fail := true), ch)
    else if s.pos == |text| then (Stream(s.pos, true, true), ch)
    else (Stream(s.pos + 1, false, false), text[s.pos])
  }

  /** putback(ch) clears eofbit; on a failed stream it does nothing else. */
  function Putback(text: string, s: Stream, ch: char): Stream
    requires s.pos <= |text| && (s.fail || (s.pos > 0 && text[s.pos - 1] == ch))
  {
    if s.fail then s.(eof := false) else Stream(s.pos - 1, false, false)
  }

  /** getline(line, n): at most n - 1 characters are stored; failbit is set when
      there are more on the line, or when nothing at all could be extracted. */
  function GetLine(text: string, s: Stream, n: nat): (r: (Stream, string))
    requires s.pos <= |text| && n > 0
    ensures s.pos <= r.0.pos <= |text| && |r.1| < n
  {
    if !s.Good() then (s.(fail := true), "")
    else
      var e := Find(text, '\n', s.pos);
      if e - s.pos > n - 1 then (Stream(s.pos + n - 1, false, true), text[s.pos..s.pos + n - 1])
      else if e == |text| then (Stream(e, true, e == s.pos), text[s.pos..e])
      else (Stream(e + 1, false, false), text[s.pos..e])
  }

  // ----- numbers -----

  predicate IsBlank(c: char) {
    c == ' ' || '\t' <= c <= '\r'
  }

  function BlanksEnd(text: string, p: nat): (q: nat)
    requires p <= |text|
    ensures p <= q <= |text| && (q < |text| ==> !IsBlank(text[q])) && forall i | p <= i < q :: IsBlank(text[i])
    decreases |text| - p
  {
    if p == |text| || !IsBlank(text[p]) then p else BlanksEnd(text, p + 1)
  }

  function DigitsEnd(text: string, p: nat): (q: nat)
    requires p <= |text|
    ensures p <= q <= |text| && (q < |text| ==> !IsDigit(text[q])) && AllDigits(text[p..q])
    decreases |text| - p
  {
    if p == |text| || !IsDigit(text[p]) then p
    else
      var q := DigitsEnd(text, p + 1);
      assert text[p..q] == [text[p]] + text[p + 1..q];
      q
  }

  /** What operator>> takes for a number: blanks, a sign, digits from `from` to `to`. */
  datatype Scan = Scan(neg: bool, from: nat, to: nat)

  function ScanNumber(text: string, p: nat): (n: Scan)
    requires p <= |text|
    ensures p <= n.from <= n.to <= |text| && AllDigits(text[n.from..n.to])
  {
    var b := BlanksEnd(text, p);
    var from := if b < |text| && (text[b] == '-' || text[b] == '+') then b + 1 else b;
    Scan(b < |text| && text[b] == '-', from, DigitsEnd(text, from))
  }

  /** The value stored, where reading stopped, and whether it was a number that fits. */
  datatype Number = Number(ok: bool, value: int, next: nat)

  /** stream >> int: 0 without digits, the nearest int when out of range. */
  function IntAt(text: string, p: nat): (n: Number)
    requires p <= |text|
    ensures p <= n.next <= |text| && -INT_MAX - 1 <= n.value <= INT_MAX
  {
    var n := ScanNumber(text, p);
    var v: int := ValueOf(text[n.from..n.to]);
    if n.from == n.to then Number(false, 0, n.to)
    else if n.neg then
      if v > INT_MAX + 1 then Number(false, -INT_MAX - 1, n.to) else Number(true, -v, n.to)
    else if v > INT_MAX then Number(false, INT_MAX, n.to)
    else Number(true, v, n.to)
  }

  /** stream >> size_t: a minus sign is taken modulo 2 to the 64. */
  function SizeAt(text: string, p: nat): (n: Number)
    requires p <= |text|
    ensures p <= n.next <= |text| && 0 <= n.value < SIZE_T
  {
    var n := ScanNumber(text, p);
    var v: int := ValueOf(text[n.from..n.to]);
    if n.from == n.to then Number(false, 0, n.to)
    else if v >= SIZE_T then Number(false, SIZE_T - 1, n.to)
    else Number(true, if n.neg && v > 0 then SIZE_T - v else v, n.to)
  }

  /** A failed stream stays where it is and keeps the value there was. */
  function Extract(text: string, s: Stream, n: Number, was: int): (r: (Stream, int))
    requires s.pos <= |text| && s.pos <= n.next <= |text|
    ensures s.pos <= r.0.pos <= |text|
  {
    if !s.Good() then (s.(fail := true), was)
    else (Stream(n.next, n.next == |text|, !n.ok), n.value)
  }
}
