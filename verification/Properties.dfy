/** Properties::load and save: a reader with a buffer of 256 characters, and the
    line by line meaning it must have. */
module Properties {
  import opened InputStream
  import opened Strings
  import opened Substitution

  const BUFFER: nat := 256

  // ----- what one line does -----

  predicate IsSpace(c: char) {
    c == ' ' || c == '\t' || c == '\r' || c == '\n'
  }

  /** find_first_not_of(whiteSpace), or the length. */
  function SkipSpace(s: string): (i: nat)
    ensures i <= |s| && (i < |s| ==> !IsSpace(s[i])) && forall j | 0 <= j < i :: IsSpace(s[j])
  {
    if s == "" || !IsSpace(s[0]) then 0 else 1 + SkipSpace(s[1..])
  }

  /** One past find_last_not_of(whiteSpace), or 0. */
  function LastWord(s: string): (e: nat)
    ensures e <= |s| && (e > 0 ==> !IsSpace(s[e - 1])) && forall j | e <= j < |s| :: IsSpace(s[j])
  {
    if s == "" then 0 else if !IsSpace(s[|s| - 1]) then |s| else LastWord(s[..|s| - 1])
  }

  function Trim(s: string): string {
    var b := SkipSpace(s);
    if b == |s| then "" else s[b..LastWord(s)]
  }

  predicate Trimmed(s: string) {
    s == "" || (!IsSpace(s[0]) && !IsSpace(s[|s| - 1]))
  }

  /** Trimming cuts white space only, and all of it at both ends. */
  lemma TrimIsTheCore(s: string)
    ensures Trimmed(Trim(s))
    ensures exists b, e | 0 <= b <= e <= |s| ::
      && Trim(s) == s[b..e] && (forall j | 0 <= j < b :: IsSpace(s[j])) && forall j | e <= j < |s| :: IsSpace(s[j])
  {
    var b, e := SkipSpace(s), LastWord(s);
    if b < |s| {
      assert b < e;
      assert Trim(s) == s[b..e];
    } else {
      assert Trim(s) == s[0..0];
    }
  }

  /** White space is blank, tab, carriage return and newline. */
  lemma SpacesAre(c: char)
    ensures IsSpace(c) <==> c in " \t\r\n"
  {
    assert " \t\r\n"[0] == ' ' && " \t\r\n"[1] == '\t' && " \t\r\n"[2] == '\r' && " \t\r\n"[3] == '\n';
  }

  /** Any of it around a core is cut. */
  lemma AroundIsCut(a: string, core: string, b: string)
    requires (forall c | c in a :: c in " \t\r\n") && forall c | c in b :: c in " \t\r\n"
    requires core != "" && core[0] !in " \t\r\n" && core[|core| - 1] !in " \t\r\n"
    ensures Trim(a + core + b) == core
  {
    hide SkipSpace, LastWord;
    var s := a + core + b;
    forall i | 0 <= i < |s| ensures IsSpace(s[i]) <==> s[i] in " \t\r\n" { SpacesAre(s[i]); }
    assert s[|a|] == core[0] && s[|a| + |core| - 1] == core[|core| - 1];
    assert SkipSpace(s) == |a|;
    assert LastWord(s) == |a| + |core|;
    assert s[|a|..|a| + |core|] == core;
  }

  lemma TrimKeeps(s: string)
    requires Trimmed(s)
    ensures Trim(s) == s
  {
    if s != "" { assert SkipSpace(s) == 0 && LastWord(s) == |s|; }
  }

  /** The command on a line: what stands before a '#'. */
  function Command(line: string): string {
    line[..Find(line, '#', 0)]
  }

  /** "log4j." or "log4cpp." in front of a key is dropped. */
  function StripPrefix(key: string): string {
    var d := Find(key, '.', 0);
    if d < |key| && (key[..d] == "log4j" || key[..d] == "log4cpp") then key[d + 1..] else key
  }

  /** std::map::insert keeps a value that is already there. */
  function Insert(m: Props, k: string, v: string): Props {
    if k in m then m else m[k := v]
  }

  function ProcessLine(m: Props, env: Props, line: string): Props {
    var command := Command(line);
    var eq := Find(command, '=', 0);
    if eq == |command| then m
    else Insert(m, StripPrefix(Trim(command[..eq])), Subst(Trim(command[eq + 1..]), env, m))
  }

  function ProcessLines(m: Props, env: Props, lines: seq<string>): Props
    decreases |lines|
  {
    if lines == [] then m else ProcessLines(ProcessLine(m, env, lines[0]), env, lines[1..])
  }

  // ----- reading -----

  /** The lines still to come when `pre` was read of the current one. */
  ghost function Pending(text: string, pos: nat, pre: string): (p: seq<string>)
    requires pos <= |text|
    ensures p != []
  {
    var segs := Segments(text[pos..], '\n');
    [pre + segs[0]] + segs[1..]
  }

  /** The loop of load: for lines of every length it reads what a plain split on newlines gives. */
  method Load(text: string, env: Props) returns (m: Props)
    requires '\0' !in text
    ensures m == ProcessLines(map[], env, Segments(text, '\n'))
  {
    hide ProcessLines, ProcessLine, Segments, Pending, CString, Find;
    m := map[];
    var fullLine := "";
    var partiallyRead := false;
    var s := Stream(0, false, false);
    PendingStart(text);
    ghost var goal := ProcessLines(map[], env, Segments(text, '\n'));
    while !s.fail
      invariant s.pos <= |text|
      invariant !s.fail && !s.eof ==>
        ProcessLines(m, env, Pending(text, s.pos, if partiallyRead then fullLine else "")) == goal
      invariant s.fail || s.eof ==> m == goal
      invariant s.eof && !s.fail ==> !partiallyRead
      decreases |text| - s.pos, if s.eof then 0 else 1, if s.fail then 0 else 1
    {
      ghost var s0, before := s, if partiallyRead then fullLine else "";
      var got := GetLine(text, s, BUFFER);
      var line := got.1;
      s := got.0;
      NoNul(text, s0);
      if partiallyRead {
        fullLine := fullLine + CString(line);
      } else {
        fullLine := CString(line);
      }
      assert fullLine == before + line;
      partiallyRead := s.fail;
      if partiallyRead && !s.eof {
        PendingMore(text, s0.pos, before);
        s := s.(fail := false);
        continue;
      }
      if s0.eof {
        EmptyLine(m, env);
      } else {
        PendingLine(m, env, text, s0.pos, before);
      }
      m := HandleLine(m, env, fullLine);
    }
  }

  /** The body of load's loop once a full line is there. */
  method HandleLine(m: Props, env: Props, fullLine: string) returns (m2: Props)
    ensures m2 == ProcessLine(m, env, fullLine)
  {
    hide Find, Trim, Subst;
    m2 := m;
    var command;
    var length := Find(fullLine, '#', 0);
    if length == |fullLine| {
      command := fullLine;
      assert command == fullLine[..length];
    } else if length > 0 {
      command := fullLine[..length];
    } else {
      assert Command(fullLine) == "";
      return;
    }
    length := Find(command, '=', 0);
    if length < |command| {
      var leftSide := Trim(command[..length]);
      var rightSide := SubstituteVariables(Trim(command[length + 1..]), env, m);
      var dot := Find(leftSide, '.', 0);
      if leftSide[..dot] == "log4j" || leftSide[..dot] == "log4cpp" {
        leftSide := if dot == |leftSide| then leftSide else leftSide[dot + 1..];
      }
      m2 := Insert(m, leftSide, rightSide);
    }
  }

  lemma PendingStart(text: string)
    ensures Pending(text, 0, "") == Segments(text, '\n')
  {
    assert text[0..] == text;
    var segs := Segments(text, '\n');
    assert "" + segs[0] == segs[0];
  }

  lemma NoNul(text: string, s: Stream)
    requires '\0' !in text && s.pos <= |text|
    ensures var line := GetLine(text, s, BUFFER).1; CString(line) == line
  {
    var line := GetLine(text, s, BUFFER).1;
    assert forall c | c in line :: c in text;
    FindIs(line, '\0', 0, |line|);
  }

  lemma EmptyLine(m: Props, env: Props)
    ensures ProcessLine(m, env, "") == m
  {
    assert Command("") == "";
  }

  lemma PendingIs(text: string, pos: nat, pre: string)
    requires pos <= |text|
    ensures var e := Find(text, '\n', pos);
      Pending(text, pos, pre) == [pre + text[pos..e]] + if e == |text| then [] else Segments(text[e + 1..], '\n')
  {
    hide Find, Segments;
    var e := Find(text, '\n', pos);
    var t := text[pos..];
    assert t[..e - pos] == text[pos..e];
    if e < |text| {
      SegmentsStep(t, e - pos);
      assert t[e - pos + 1..] == text[e + 1..];
    } else {
      OneSegment(t, '\n');
      assert t == text[pos..e];
    }
  }

  /** A chunk of 255 that does not reach the end of the line. */
  lemma PendingMore(text: string, pos: nat, pre: string)
    requires pos <= |text| && Find(text, '\n', pos) - pos > BUFFER - 1
    ensures Pending(text, pos, pre) == Pending(text, pos + BUFFER - 1, pre + text[pos..pos + BUFFER - 1])
  {
    hide Pending, Segments;
    var e := Find(text, '\n', pos);
    var p := pos + BUFFER - 1;
    FindIs(text, '\n', p, e);
    PendingIs(text, pos, pre);
    PendingIs(text, p, pre + text[pos..p]);
    assert pre + text[pos..e] == (pre + text[pos..p]) + text[p..e];
  }

  lemma SegmentsStep(s: string, i: nat)
    requires i < |s| && s[i] == '\n' && forall j | 0 <= j < i :: s[j] != '\n'
    ensures Segments(s, '\n') == [s[..i]] + Segments(s[i + 1..], '\n')
  {
    FindIs(s, '\n', 0, i);
  }

  /** The rest of the line is read. */
  lemma PendingLine(m: Props, env: Props, text: string, pos: nat, pre: string)
    requires pos <= |text|
    ensures var e := Find(text, '\n', pos); var m2 := ProcessLine(m, env, pre + text[pos..e]);
      ProcessLines(m, env, Pending(text, pos, pre)) ==
        if e == |text| then m2 else ProcessLines(m2, env, Pending(text, e + 1, ""))
  {
    hide Pending, ProcessLine, Segments;
    var e := Find(text, '\n', pos);
    var line := pre + text[pos..e];
    PendingIs(text, pos, pre);
    if e < |text| {
      PendingSuffix(text, e + 1);
      assert ([line] + Segments(text[e + 1..], '\n'))[1..] == Segments(text[e + 1..], '\n');
    } else {
      assert [line] + [] == [line];
    }
  }

  lemma PendingSuffix(text: string, pos: nat)
    requires pos <= |text|
    ensures Pending(text, pos, "") == Segments(text[pos..], '\n')
  {
    PendingStart(text[pos..]);
    assert text[pos..][0..] == text[pos..];
  }

  // ----- comments, repeated keys, and saving -----

  lemma CommentsAreCut(m: Props, env: Props, a: string, b: string)
    requires '#' !in a
    ensures ProcessLine(m, env, a + "#" + b) == ProcessLine(m, env, a)
  {
    hide Find, Trim, Subst, StripPrefix, Insert;
    FindIs(a + "#" + b, '#', 0, |a|);
    FindIs(a, '#', 0, |a|);
    assert Command(a + "#" + b) == a == Command(a);
  }

  /** The first definition of a key wins. */
  lemma {:induction false} FirstDefinitionWins(m: Props, env: Props, lines: seq<string>, k: string)
    requires k in m
    ensures k in ProcessLines(m, env, lines) && ProcessLines(m, env, lines)[k] == m[k]
    decreases |lines|
  {
    if lines != [] {
      hide Command, Trim, Subst, StripPrefix;
      FirstDefinitionWins(ProcessLine(m, env, lines[0]), env, lines[1..], k);
    }
  }

  function Entry(k: string, v: string): string {
    k + "=" + v
  }

  /** A line without a '=' in front of any '#' does nothing: a blank line or a comment, say. */
  lemma NothingDefined(m: Props, env: Props, before: string, comment: string)
    requires '=' !in before && '#' !in before && (comment != "" ==> comment[0] == '#')
    ensures ProcessLine(m, env, before + comment) == m
  {
    hide Find, Trim, Subst, StripPrefix;
    var line := before + comment;
    FindIs(line, '#', 0, |before|);
    assert Command(line) == before;
    FindIs(before, '=', 0, |before|);
  }

  /** What one entry on a line of its own defines. */
  lemma EntryLine(m: Props, env: Props, k: string, v: string)
    requires '#' !in k && '#' !in v && '=' !in k
    ensures ProcessLine(m, env, Entry(k, v)) == Insert(m, StripPrefix(Trim(k)), Subst(Trim(v), env, m))
  {
    hide Find, Trim, StripPrefix, Subst, Insert;
    var line := Entry(k, v);
    FindIs(line, '#', 0, |line|);
    FindIs(line, '=', 0, |k|);
    assert line[..|line|] == line && line[..|k|] == k && line[|k| + 1..] == v;
  }

  /** White space around key and value makes no difference; it is cut before a prefix is looked for. */
  lemma SpaceIsCut(m: Props, env: Props, a: string, k: string, b: string, c: string, v: string, d: string)
    requires forall x | x in a + b + c + d :: x in " \t\r\n"
    requires '#' !in k && '=' !in k && '#' !in v
    requires k != "" && k[0] !in " \t\r\n" && k[|k| - 1] !in " \t\r\n"
    requires v != "" && v[0] !in " \t\r\n" && v[|v| - 1] !in " \t\r\n"
    ensures ProcessLine(m, env, Entry(a + k + b, c + v + d)) == ProcessLine(m, env, Entry(k, v))
    ensures ProcessLine(m, env, Entry(k, v)) == Insert(m, StripPrefix(k), Subst(v, env, m))
  {
    hide ProcessLine, Trim, StripPrefix, Subst, Insert;
    NoMarkInSpace(a);
    NoMarkInSpace(b);
    NoMarkInSpace(c);
    NoMarkInSpace(d);
    EntryLine(m, env, a + k + b, c + v + d);
    EntryLine(m, env, k, v);
    AroundIsCut(a, k, b);
    AroundIsCut(c, v, d);
    AroundIsCut("", k, "");
    AroundIsCut("", v, "");
    assert "" + k + "" == k && "" + v + "" == v;
  }

  lemma NoMarkInSpace(a: string)
    requires forall x | x in a :: x in " \t\r\n"
    ensures '#' !in a && '=' !in a
  {
  }

  lemma HeadIsCut(head: string, k: string)
    requires (head == "log4j" || head == "log4cpp") && Trimmed(k)
    ensures StripPrefix(Trim(head + ("." + k))) == k
  {
    hide Find, Trim;
    var key := head + ("." + k);
    TrimKeeps(key);
    FindIs(key, '.', 0, |head|);
    assert key[..|head|] == head && key[|head| + 1..] == k;
  }

  /** "log4j." and "log4cpp." in front of a key make no difference. */
  lemma PrefixIsDropped(m: Props, env: Props, head: string, k: string, v: string)
    requires (head == "log4j" || head == "log4cpp") && Trimmed(k)
    requires '#' !in k && '#' !in v && '=' !in k
    ensures ProcessLine(m, env, head + ("." + Entry(k, v))) == Insert(m, k, Subst(Trim(v), env, m))
  {
    hide ProcessLine, StripPrefix, Trim, Subst, Insert;
    var key := head + ("." + k);
    assert head + ("." + Entry(k, v)) == Entry(key, v);
    EntryLine(m, env, key, v);
    HeadIsCut(head, k);
  }

  function SaveText(keys: seq<string>, m: Props): string
    requires forall i | 0 <= i < |keys| :: keys[i] in m
  {
    if keys == [] then "" else Entry(keys[0], m[keys[0]]) + "\n" + SaveText(keys[1..], m)
  }

  /** The map's iterator meets each key once. */
  ghost predicate Enumerates(keys: seq<string>, m: Props) {
    && (forall i | 0 <= i < |keys| :: keys[i] in m)
    && (forall i, j | 0 <= i < j < |keys| :: keys[i] != keys[j])
    && forall k | k in m :: k in keys
  }

  method Save(keys: seq<string>, m: Props) returns (out: string)
    requires Enumerates(keys, m)
    ensures out == SaveText(keys, m)
  {
    out := "";
    var i := 0;
    while i < |keys|
      invariant 0 <= i <= |keys| && out + SaveText(keys[i..], m) == SaveText(keys, m)
    {
      assert keys[i..][1..] == keys[i + 1..];
      ghost var line, rest := Entry(keys[i], m[keys[i]]) + "\n", SaveText(keys[i + 1..], m);
      Associative(out, line, rest);
      out := out + (Entry(keys[i], m[keys[i]]) + "\n");
      i := i + 1;
    }
  }

  /** What can be written to a file and read back. */
  predicate Storable(k: string, v: string) {
    && Trimmed(k) && Trimmed(v)
    && '\n' !in k && '\n' !in v && '#' !in k && '#' !in v && '=' !in k
    && !("log4j." <= k) && !("log4cpp." <= k)
    && forall j | 0 <= j < |v| :: !OpenAt(v, j)
  }

  /** What stands before the first '.', and the '.', is a prefix of the key. */
  lemma HeadIsPrefix(k: string, head: string)
    requires !(head + "." <= k)
    ensures var d := Find(k, '.', 0); d < |k| ==> k[..d] != head
  {
    var d := Find(k, '.', 0);
    if d < |k| { assert k[..d + 1] == k[..d] + "."; }
  }

  lemma StripKeeps(k: string)
    requires !("log4j." <= k) && !("log4cpp." <= k)
    ensures StripPrefix(k) == k
  {
    assert "log4j" + "." == "log4j." && "log4cpp" + "." == "log4cpp.";
    HeadIsPrefix(k, "log4j");
    HeadIsPrefix(k, "log4cpp");
  }

  lemma EntryReads(acc: Props, env: Props, k: string, v: string)
    requires Storable(k, v)
    ensures ProcessLine(acc, env, Entry(k, v)) == Insert(acc, k, v)
  {
    hide ProcessLine, Trim, StripPrefix, Subst, Insert;
    EntryLine(acc, env, k, v);
    TrimKeeps(k);
    TrimKeeps(v);
    StripKeeps(k);
    NoOpeningIsUnchanged(v, env, acc);
  }

  function AddAll(acc: Props, keys: seq<string>, m: Props): Props
    requires forall i | 0 <= i < |keys| :: keys[i] in m
    decreases |keys|
  {
    if keys == [] then acc else AddAll(Insert(acc, keys[0], m[keys[0]]), keys[1..], m)
  }

  lemma {:induction false} SavedReads(acc: Props, env: Props, keys: seq<string>, m: Props)
    requires forall i | 0 <= i < |keys| :: keys[i] in m && Storable(keys[i], m[keys[i]])
    ensures ProcessLines(acc, env, Segments(SaveText(keys, m), '\n')) == AddAll(acc, keys, m)
    decreases |keys|
  {
    hide ProcessLine, Insert;
    if keys == [] {
      assert Segments("", '\n') == [""];
      EmptyLine(acc, env);
    } else {
      var k, v := keys[0], m[keys[0]];
      var line, rest := Entry(k, v), SaveText(keys[1..], m);
      var s := line + "\n" + rest;
      assert s[..|line|] == line && s[|line|] == '\n' && s[|line| + 1..] == rest;
      SegmentsStep(s, |line|);
      EntryReads(acc, env, k, v);
      SavedReads(Insert(acc, k, v), env, keys[1..], m);
      var segs := [line] + Segments(rest, '\n');
      assert segs[1..] == Segments(rest, '\n');
    }
  }

  lemma {:induction false} AddAllMap(acc: Props, keys: seq<string>, m: Props)
    requires forall i | 0 <= i < |keys| :: keys[i] in m && keys[i] !in acc
    requires forall i, j | 0 <= i < j < |keys| :: keys[i] != keys[j]
    ensures var r := AddAll(acc, keys, m);
      && (forall k | k in acc :: k in r && r[k] == acc[k])
      && (forall k | k in keys :: k in r && r[k] == m[k])
      && forall k | k in r :: k in acc || k in keys
    decreases |keys|
  {
    if keys != [] {
      AddAllMap(Insert(acc, keys[0], m[keys[0]]), keys[1..], m);
    }
  }

  /** Saving and loading gives the same map back, in whatever order its keys are written. */
  lemma SaveLoad(keys: seq<string>, m: Props, env: Props)
    requires Enumerates(keys, m) && forall k | k in m :: Storable(k, m[k])
    ensures ProcessLines(map[], env, Segments(SaveText(keys, m), '\n')) == m
  {
    hide ProcessLines, Segments, SaveText, Storable, AddAll;
    SavedReads(map[], env, keys, m);
    AddAllMap(map[], keys, m);
    var r := AddAll(map[], keys, m);
    assert r.Keys == m.Keys;
  }
}
