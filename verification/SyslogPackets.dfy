/** RemoteSyslogAppender::_append: a message cut into packets inside one buffer. */
module SyslogPackets {
  import opened InputStream
  import opened Strings

  const MAX_PACKET: nat := 900
  const LOG_EMERG: int := 0
  const LOG_DEBUG: int := 7

  // ----- the preamble -----

  /** Division as C does it. */
  function Truncated(a: int, b: int): int
    requires b > 0
  {
    if a >= 0 then a / b else -(-a / b)
  }

  /** toSyslogPriority; the table of eight priorities has p at place p. */
  function ToSyslogPriority(priority: int): int {
    var p := Truncated(priority + 1, 100);
    if p < 0 then LOG_EMERG else if p > 7 then LOG_DEBUG else p
  }

  /** Each of the eight levels takes the hundred that starts one below its own
      value; what is outside goes to the nearest. */
  lemma PriorityLevels(priority: int)
    ensures var l := ToSyslogPriority(priority);
      && 0 <= l <= 7
      && (l > 0 ==> 100 * l - 1 <= priority)
      && (l < 7 ==> priority < 100 * l + 99)
      && (0 <= priority <= 700 && priority % 100 == 0 ==> l == priority / 100)
  {
  }

  function Signed(n: int): string {
    if n < 0 then "-" + Decimal(-n) else Decimal(n)
  }

  /** sprintf(buf, "<%d>", priority) */
  function Preamble(priority: int): string {
    "<" + Signed(priority) + ">"
  }

  /** '<', the number in decimal, '>'. */
  lemma PreambleReads(priority: int)
    ensures var s := Preamble(priority); var sign := if priority < 0 then "-" else "";
      exists d: string :: s == "<" + (sign + (d + ">")) && AllDigits(d) && d != "" && (d[0] != '0' || d == "0")
        && ValueOf(d) == if priority < 0 then -priority else priority
  {
    hide Decimal, ValueOf;
    var sign := if priority < 0 then "-" else "";
    var n := if priority < 0 then -priority else priority;
    var d := Decimal(n);
    DecimalValue(n);
    if n > 0 { NoLeadingZero(n); } else { ZeroIs(); }
    assert Preamble(priority) == "<" + (sign + (d + ">"));
  }

  lemma ZeroIs()
    ensures Decimal(0) == "0"
  {
  }

  function Power(k: nat): nat {
    if k == 0 then 1 else 10 * Power(k - 1)
  }

  lemma {:induction false} DecimalLength(n: nat, k: nat)
    requires k > 0 && n < Power(k)
    ensures |Decimal(n)| <= k
  {
    assert Power(k) == 10 * Power(k - 1);
    if n >= 10 {
      DecimalLength(n / 10, k - 1);
    }
  }

  /** For every int the preamble has 3 to 13 characters, which leaves room in the
      16 that are reserved. */
  lemma PreambleFits(priority: int)
    requires -INT_MAX - 1 <= priority <= INT_MAX
    ensures 3 <= |Preamble(priority)| <= 13
  {
    assert Power(10) == 10_000_000_000 by { TenDigits(); }
    DecimalLength(if priority < 0 then -priority else priority, 10);
  }

  lemma TenDigits()
    ensures Power(10) == 10_000_000_000
  {
    assert Power(4) == 10000;
    assert Power(8) == 100_000_000;
  }

  // ----- the packets -----

  /** What the packets carry behind the preamble. */
  function Payloads(packets: seq<string>, p: nat): string
    requires forall i | 0 <= i < |packets| :: p <= |packets[i]|
  {
    if packets == [] then "" else Payloads(packets[..|packets| - 1], p) + packets[|packets| - 1][p..]
  }

  ghost predicate Full(packets: seq<string>, preamble: string) {
    forall i | 0 <= i < |packets| :: |packets[i]| == MAX_PACKET && preamble <= packets[i]
  }

  /** All packets are full but the last, which holds something and is not longer;
      all start with the preamble, and together they carry the message. */
  ghost predicate Carries(packets: seq<string>, preamble: string, message: string) {
    && |preamble| < MAX_PACKET
    && (packets != [] ==>
      && Full(packets[..|packets| - 1], preamble)
      && var last := packets[|packets| - 1]; preamble <= last && |preamble| < |last| <= MAX_PACKET)
    && (forall i | 0 <= i < |packets| :: |preamble| <= |packets[i]|)
    && Payloads(packets, |preamble|) == message
  }

  lemma PayloadsMore(packets: seq<string>, packet: string, p: nat)
    requires (forall i | 0 <= i < |packets| :: p <= |packets[i]|) && p <= |packet|
    ensures Payloads(packets + [packet], p) == Payloads(packets, p) + packet[p..]
  {
    assert (packets + [packet])[..|packets|] == packets;
  }

  /** sprintf, with its NUL, and then memcpy. */
  method Fill(buf: array<char>, preamble: string, message: string)
    requires |preamble| + |message| < buf.Length
    modifies buf
    ensures buf[..|preamble|] == preamble && buf[|preamble|..|preamble| + |message|] == message
  {
    forall i | 0 <= i < |preamble| { buf[i] := preamble[i]; }
    buf[|preamble|] := '\0';
    forall i | 0 <= i < |message| { buf[|preamble| + i] := message[i]; }
  }

  /** memmove(buf + target, buf + source, n) */
  method Move(buf: array<char>, target: nat, source: nat, n: nat)
    requires target <= source && source + n <= buf.Length
    modifies buf
    ensures buf[..target] == old(buf[..target])
    ensures buf[target..target + n] == old(buf[source..source + n])
  {
    forall i | 0 <= i < n { buf[target + i] := buf[source + i]; }
  }

  method Append(message: string, facility: int, eventPriority: int) returns (packets: seq<string>)
    requires -INT_MAX - 1 <= facility + ToSyslogPriority(eventPriority) <= INT_MAX
    ensures Carries(packets, Preamble(facility + ToSyslogPriority(eventPriority)), message)
  {
    hide Signed, ToSyslogPriority, Payloads, Carries, Rest;
    packets := [];
    var messageLength := |message|;
    var buf := new char[messageLength + 16];
    var priority := facility + ToSyslogPriority(eventPriority);
    var preamble := Preamble(priority);
    PreambleFits(priority);
    var preambleLength := |preamble|;
    Fill(buf, preamble, message);
    NoPayload(preamble, message);
    while messageLength > 0
      invariant 0 <= messageLength && preambleLength + messageLength <= buf.Length && buf[..preambleLength] == preamble
      invariant Rest(packets, preamble, buf[preambleLength..preambleLength + messageLength], message)
      invariant messageLength == 0 ==> packets == []
      decreases messageLength
    {
      ghost var was := buf[..];
      if preambleLength + messageLength > MAX_PACKET {
        OneMore(packets, preamble, was, messageLength, message);
        packets := packets + [buf[..MAX_PACKET]];
        messageLength := messageLength - (MAX_PACKET - preambleLength);
        Move(buf, preambleLength, MAX_PACKET, messageLength);
      } else {
        LastOne(packets, preamble, was, messageLength, message);
        packets := packets + [buf[..preambleLength + messageLength]];
        return;
      }
    }
    assert buf[preambleLength..preambleLength] == "";
    NothingLeft(packets, preamble, message);
  }

  /** Full packets were sent, and `rest` is what is left to send. */
  ghost predicate Rest(packets: seq<string>, preamble: string, rest: string, message: string) {
    && Full(packets, preamble) && |preamble| < MAX_PACKET
    && Payloads(packets, |preamble|) + rest == message
    && (rest == "" ==> Carries(packets, preamble, message))
  }

  lemma NoPayload(preamble: string, message: string)
    requires |preamble| < MAX_PACKET
    ensures Rest([], preamble, message, message)
  {
    assert Payloads([], |preamble|) == "" && "" + message == message;
  }

  lemma OneMore(packets: seq<string>, preamble: string, buf: string, n: nat, message: string)
    requires |preamble| + n <= |buf| && |preamble| + n > MAX_PACKET && buf[..|preamble|] == preamble
    requires Rest(packets, preamble, buf[|preamble|..|preamble| + n], message)
    ensures Rest(packets + [buf[..MAX_PACKET]], preamble, buf[MAX_PACKET..|preamble| + n], message)
  {
    hide Payloads;
    var packet := buf[..MAX_PACKET];
    PayloadsMore(packets, packet, |preamble|);
    Rejoin(Payloads(packets, |preamble|), buf, |preamble|, MAX_PACKET, |preamble| + n);
    assert packet[..|preamble|] == preamble;
  }

  lemma LastOne(packets: seq<string>, preamble: string, buf: string, n: nat, message: string)
    requires |preamble| + n <= |buf| && 0 < n <= MAX_PACKET - |preamble| && buf[..|preamble|] == preamble
    requires Rest(packets, preamble, buf[|preamble|..|preamble| + n], message)
    ensures Carries(packets + [buf[..|preamble| + n]], preamble, message)
  {
    hide Payloads;
    var packet := buf[..|preamble| + n];
    PayloadsMore(packets, packet, |preamble|);
    assert packet[|preamble|..] == buf[|preamble|..|preamble| + n];
    assert (packets + [packet])[..|packets|] == packets;
    assert packet[..|preamble|] == preamble;
  }

  lemma NothingLeft(packets: seq<string>, preamble: string, message: string)
    requires Rest(packets, preamble, "", message)
    ensures Carries(packets, preamble, message)
  {
  }

  lemma Rejoin(a: string, s: string, i: nat, j: nat, k: nat)
    requires i <= j <= k <= |s|
    ensures (a + s[..j][i..]) + s[j..k] == a + s[i..k]
  {
    assert s[..j][i..] + s[j..k] == s[i..k];
  }

  // ----- these packets and no others -----

  lemma {:induction false} PayloadLength(packets: seq<string>, preamble: string)
    requires Full(packets, preamble) && |preamble| < MAX_PACKET
    ensures |Payloads(packets, |preamble|)| == |packets| * (MAX_PACKET - |preamble|)
    decreases |packets|
  {
    if packets != [] {
      var n := |packets| - 1;
      PayloadLength(packets[..n], preamble);
      assert |packets| * (MAX_PACKET - |preamble|) == n * (MAX_PACKET - |preamble|) + (MAX_PACKET - |preamble|);
    }
  }

  /** A message of n bytes takes as many packets as it must: n divided by the room
      in a packet, rounded up. An empty one takes none. */
  lemma PacketCount(packets: seq<string>, preamble: string, message: string)
    requires Carries(packets, preamble, message)
    ensures var room := MAX_PACKET - |preamble|;
      (|packets| - 1) * room < |message| <= |packets| * room || (packets == [] && message == "")
  {
    if packets != [] {
      var n := |packets| - 1;
      PayloadLength(packets[..n], preamble);
      assert |packets| * (MAX_PACKET - |preamble|) == n * (MAX_PACKET - |preamble|) + (MAX_PACKET - |preamble|);
    }
  }
}
