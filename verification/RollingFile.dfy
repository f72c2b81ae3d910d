/** RollingFileAppender over a directory that maps names to contents. System
    calls succeed; nobody else touches the directory. */
module RollingFile {
  import opened Strings

  type Files = map<string, string>

  datatype Entry = Missing | File(content: string)

  function At(fs: Files, name: string): Entry {
    if name in fs then File(fs[name]) else Missing
  }

  // ----- system calls -----

  function Remove(fs: Files, name: string): Files {
    fs - {name}
  }

  /** rename(2): nothing happens when there is no such file; what has the new name is replaced. */
  function Rename(fs: Files, from: string, target: string): Files {
    if from !in fs || from == target then fs else (fs - {from})[target := fs[from]]
  }

  function Open(fs: Files, name: string, truncate: bool): Files {
    if name in fs && !truncate then fs else fs[name := ""]
  }

  // ----- the names of backups -----

  function Zeros(n: int): (z: string)
    ensures AllZeros(z)
  {
    if n <= 0 then "" else "0" + Zeros(n - 1)
  }

  /** setw(width) << setfill('0') << i */
  function Padded(i: nat, width: nat): string {
    Zeros(width - |Decimal(i)|) + Decimal(i)
  }

  function Backup(fileName: string, width: nat, i: nat): string {
    fileName + ("." + Padded(i, width))
  }

  /** The names do not clash, for any width. */
  lemma BackupsDiffer(fileName: string, width: nat, i: nat, j: nat)
    ensures Backup(fileName, width, i) == Backup(fileName, width, j) ==> i == j
    ensures Backup(fileName, width, i) != fileName
  {
    hide Decimal, ValueOf;
    assert |Backup(fileName, width, i)| > |fileName|;
    if Backup(fileName, width, i) == Backup(fileName, width, j) {
      assert Backup(fileName, width, i)[|fileName| + 1..] == Padded(i, width);
      assert Backup(fileName, width, j)[|fileName| + 1..] == Padded(j, width);
      PaddedValue(i, width);
      PaddedValue(j, width);
    }
  }

  lemma PaddedValue(i: nat, width: nat)
    ensures AllDigits(Padded(i, width)) && ValueOf(Padded(i, width)) == i
  {
    hide Decimal, ValueOf;
    ZerosValue(Zeros(width - |Decimal(i)|), Decimal(i));
    DecimalValue(i);
  }

  lemma {:induction false} ZerosLength(n: int)
    ensures |Zeros(n)| == if n <= 0 then 0 else n
  {
    if n > 0 { ZerosLength(n - 1); }
  }

  /** With the width of the number of digits of the last backup, all backups have names of one length. */
  lemma PaddedLength(i: nat, n: nat)
    requires i <= n
    ensures |Padded(i, |Decimal(n)|)| == |Decimal(n)|
  {
    DecimalGrows(i, n);
    ZerosLength(|Decimal(n)| - |Decimal(i)|);
  }

  /** So the names, each the file name, a dot and the number, are in the order of the numbers. */
  lemma NamesInOrder(fileName: string, i: nat, j: nat, n: nat)
    requires i < j <= n
    ensures Less(Backup(fileName, |Decimal(n)|, i), Backup(fileName, |Decimal(n)|, j))
    ensures var digits := Backup(fileName, |Decimal(n)|, i)[|fileName| + 1..];
      && Backup(fileName, |Decimal(n)|, i) == fileName + "." + digits
      && |digits| == |Decimal(n)| && AllDigits(digits) && ValueOf(digits) == i
  {
    hide Less, ValueOf, Decimal;
    var w := |Decimal(n)|;
    PaddedLength(i, n);
    PaddedLength(j, n);
    PaddedValue(i, w);
    PaddedValue(j, w);
    DigitsInOrder(Padded(i, w), Padded(j, w));
    LessPrefix(".", Padded(i, w), Padded(j, w));
    LessPrefix(fileName, "." + Padded(i, w), "." + Padded(j, w));
    assert Backup(fileName, w, i)[|fileName| + 1..] == Padded(i, w);
  }

  // ----- one rotation -----

  /** Every backup up to n moves up by one, the n-th is gone, the file becomes
      the first and starts anew; all else stays. */
  ghost predicate Rotated(was: Files, fs: Files, fileName: string, width: nat, n: nat) {
    && At(fs, fileName) == File("")
    && (forall i | 1 < i <= n :: At(fs, Backup(fileName, width, i)) == At(was, Backup(fileName, width, i - 1)))
    && (n > 0 ==> At(fs, Backup(fileName, width, 1)) == At(was, fileName))
    && forall name | Other(name, fileName, width, n) :: At(fs, name) == At(was, name)
  }

  ghost predicate Other(name: string, fileName: string, width: nat, n: nat) {
    name != fileName && forall i | 1 <= i <= n :: name != Backup(fileName, width, i)
  }

  /** The state of the loop: the names above i are done, i is free. */
  ghost predicate Rotating(was: Files, fs: Files, fileName: string, width: nat, n: nat, i: nat) {
    && At(fs, fileName) == At(was, fileName)
    && At(fs, Backup(fileName, width, i)) == Missing
    && (forall j | i < j <= n :: At(fs, Backup(fileName, width, j)) == At(was, Backup(fileName, width, j - 1)))
    && (forall j | 1 <= j < i :: At(fs, Backup(fileName, width, j)) == At(was, Backup(fileName, width, j)))
    && forall name | Other(name, fileName, width, n) :: At(fs, name) == At(was, name)
  }

  lemma RotateStart(was: Files, fileName: string, width: nat, n: nat)
    requires n > 0
    ensures Rotating(was, Remove(was, Backup(fileName, width, n)), fileName, width, n, n)
  {
    hide Backup;
    BackupsDiffer(fileName, width, n, n);
    forall j | 1 <= j < n { BackupsDiffer(fileName, width, j, n); }
  }

  lemma RotateStep(was: Files, fs: Files, fileName: string, width: nat, n: nat, i: nat)
    requires Rotating(was, fs, fileName, width, n, i) && 1 < i <= n
    ensures Rotating(was, Rename(fs, Backup(fileName, width, i - 1), Backup(fileName, width, i)), fileName, width, n, i - 1)
  {
    hide Backup;
    var from, target := Backup(fileName, width, i - 1), Backup(fileName, width, i);
    BackupsDiffer(fileName, width, i - 1, i);
    BackupsDiffer(fileName, width, i, i);
    forall j | 1 <= j <= n ensures j != i ==> Backup(fileName, width, j) != target {
      BackupsDiffer(fileName, width, j, i);
    }
    forall j | 1 <= j <= n ensures j != i - 1 ==> Backup(fileName, width, j) != from {
      BackupsDiffer(fileName, width, j, i - 1);
    }
  }

  lemma RotateEnd(was: Files, fs: Files, fileName: string, width: nat, n: nat, truncate: bool)
    requires Rotating(was, fs, fileName, width, n, 1) && n > 0
    ensures Rotated(was, Open(Rename(fs, fileName, Backup(fileName, width, 1)), fileName, truncate), fileName, width, n)
  {
    hide Backup;
    forall j | 1 <= j <= n ensures j != 1 ==> Backup(fileName, width, j) != Backup(fileName, width, 1) {
      BackupsDiffer(fileName, width, j, 1);
    }
    forall j | 1 <= j <= n ensures Backup(fileName, width, j) != fileName {
      BackupsDiffer(fileName, width, j, j);
    }
  }

  // ----- what the log should look like -----

  /** The messages cut into files: a file is closed by the message that makes it reach max. */
  function Cut(messages: seq<string>, max: nat): (r: (seq<string>, string)) {
    if messages == [] then ([], "")
    else
      var (complete, rest) := Cut(messages[..|messages| - 1], max);
      CutOne(complete, rest, messages[|messages| - 1], max)
  }

  function CutOne(complete: seq<string>, rest: string, message: string, max: nat): (seq<string>, string) {
    if |rest + message| >= max then (complete + [rest + message], "") else (complete, rest + message)
  }

  /** The directory holds the rest, and the last n complete files with the newest as number 1. */
  ghost predicate Holds(fs: Files, fileName: string, width: nat, n: nat, complete: seq<string>, rest: string) {
    && At(fs, fileName) == File(rest)
    && forall i | 1 <= i <= n ::
         At(fs, Backup(fileName, width, i)) == if i <= |complete| then File(complete[|complete| - i]) else Missing
  }

  lemma RotatedHolds(was: Files, fs: Files, fileName: string, width: nat, n: nat, complete: seq<string>, rest: string)
    requires Rotated(was, fs, fileName, width, n) && Holds(was, fileName, width, n, complete, rest) && n > 0
    ensures Holds(fs, fileName, width, n, complete + [rest], "")
  {
    hide Backup, At;
    var more := complete + [rest];
    forall i | 1 <= i <= n
      ensures At(fs, Backup(fileName, width, i)) == if i <= |more| then File(more[|more| - i]) else Missing
    {
      if i > 1 {
        assert At(was, Backup(fileName, width, i - 1)) ==
          if i - 1 <= |complete| then File(complete[|complete| - (i - 1)]) else Missing;
      }
    }
  }

  lemma AppendHolds(fs: Files, fileName: string, width: nat, n: nat, complete: seq<string>, rest: string, content: string)
    requires Holds(fs, fileName, width, n, complete, rest)
    ensures Holds(fs[fileName := content], fileName, width, n, complete, content)
  {
    hide Backup;
    forall i | 1 <= i <= n ensures Backup(fileName, width, i) != fileName { BackupsDiffer(fileName, width, i, i); }
  }

  // ----- the appender -----

  class RollingFileAppender {
    const fileName: string
    const maxBackupIndex: nat
    const maxBackupIndexWidth: nat
    const maxFileSize: nat
    const truncate: bool
    var files: Files
    ghost var messages: seq<string>

    /** On a directory without earlier logs. */
    constructor (files: Files, fileName: string, maxFileSize: nat, maxBackupIndex: nat, width: nat, append: bool)
      requires At(files, fileName) == Missing
      requires forall i | 1 <= i <= (if maxBackupIndex > 0 then maxBackupIndex else 1) ::
        At(files, Backup(fileName, width, i)) == Missing
      ensures Valid() && messages == []
      ensures this.fileName == fileName && this.maxFileSize == maxFileSize && this.files == files[fileName := ""]
      ensures this.maxBackupIndex == (if maxBackupIndex > 0 then maxBackupIndex else 1) && maxBackupIndexWidth == width
      ensures truncate == !append
    {
      hide Backup;
      this.fileName, this.maxFileSize, maxBackupIndexWidth := fileName, maxFileSize, width;
      this.maxBackupIndex := if maxBackupIndex > 0 then maxBackupIndex else 1;
      truncate := !append;
      this.files := Open(files, fileName, !append);
      messages := [];
      new;
      forall i | 1 <= i <= this.maxBackupIndex ensures Backup(fileName, width, i) != fileName {
        BackupsDiffer(fileName, width, i, i);
      }
    }

    ghost predicate Valid()
      reads this
    {
      && maxBackupIndex > 0
      && var (complete, rest) := Cut(messages, maxFileSize);
         Holds(files, fileName, maxBackupIndexWidth, maxBackupIndex, complete, rest)
    }

    method RollOver()
      modifies this`files
      ensures maxBackupIndex > 0 ==> Rotated(old(files), files, fileName, maxBackupIndexWidth, maxBackupIndex)
      ensures maxBackupIndex == 0 ==> files == old(files)[fileName := if truncate then "" else Content(old(files), fileName)]
    {
      hide Rotating, Rotated, Backup;
      if maxBackupIndex > 0 {
        var lastLogFilename := Backup(fileName, maxBackupIndexWidth, maxBackupIndex);
        files := Remove(files, lastLogFilename);
        RotateStart(old(files), fileName, maxBackupIndexWidth, maxBackupIndex);
        var i := maxBackupIndex;
        while i > 1
          invariant 1 <= i <= maxBackupIndex
          invariant lastLogFilename == Backup(fileName, maxBackupIndexWidth, i)
          invariant Rotating(old(files), files, fileName, maxBackupIndexWidth, maxBackupIndex, i)
        {
          RotateStep(old(files), files, fileName, maxBackupIndexWidth, maxBackupIndex, i);
          var name := Backup(fileName, maxBackupIndexWidth, i - 1);
          files := Rename(files, name, lastLogFilename);
          lastLogFilename := name;
          i := i - 1;
        }
        RotateEnd(old(files), files, fileName, maxBackupIndexWidth, maxBackupIndex, truncate);
        files := Rename(files, fileName, lastLogFilename);
      }
      files := Open(files, fileName, truncate);
    }

    /** After every append the directory is the log cut into files. */
    method Append(message: string)
      requires Valid()
      modifies this
      ensures Valid() && messages == old(messages) + [message]
    {
      hide Holds, Rotated, Backup, Cut;
      ghost var (complete, rest) := Cut(messages, maxFileSize);
      Current(files, fileName, maxBackupIndexWidth, maxBackupIndex, complete, rest);
      AppendHolds(files, fileName, maxBackupIndexWidth, maxBackupIndex, complete, rest, rest + message);
      CutAppend(messages, message, maxFileSize);
      files := files[fileName := files[fileName] + message];
      messages := messages + [message];
      var offset := |files[fileName]|;
      if offset >= maxFileSize {
        ghost var was := files;
        RollOver();
        RotatedHolds(was, files, fileName, maxBackupIndexWidth, maxBackupIndex, complete, rest + message);
      }
    }
  }

  lemma Current(fs: Files, fileName: string, width: nat, n: nat, complete: seq<string>, rest: string)
    requires Holds(fs, fileName, width, n, complete, rest)
    ensures fileName in fs && fs[fileName] == rest
  {
  }

  lemma CutAppend(messages: seq<string>, message: string, max: nat)
    ensures Cut(messages + [message], max) == CutOne(Cut(messages, max).0, Cut(messages, max).1, message, max)
  {
    assert (messages + [message])[..|messages|] == messages;
  }

  // ----- whole runs -----

  function Concat(parts: seq<string>): string {
    if parts == [] then "" else parts[0] + Concat(parts[1..])
  }

  lemma {:induction false} ConcatSplit(a: seq<string>, b: seq<string>)
    ensures Concat(a + b) == Concat(a) + Concat(b)
    decreases |a|
  {
    if a == [] {
      assert a + b == b;
    } else {
      assert (a + b)[1..] == a[1..] + b;
      ConcatSplit(a[1..], b);
    }
  }

  lemma ConcatOne(a: seq<string>, x: string)
    ensures Concat(a + [x]) == Concat(a) + x
  {
    ConcatSplit(a, [x]);
    assert Concat([x]) == x + Concat([]) == x;
  }

  /** Nothing is lost or added by cutting; closed files have at least max bytes,
      and less than a message more; the open one has less. */
  lemma {:induction false} CutIsTheLog(messages: seq<string>, max: nat)
    ensures var (complete, rest) := Cut(messages, max);
      && Concat(complete) + rest == Concat(messages)
      && (max > 0 ==> |rest| < max)
      && forall c | c in complete :: |c| >= max && (max > 0 ==> exists m | m in messages :: |c| < max + |m|)
    decreases |messages|
  {
    hide Concat;
    NothingIsEmpty();
    if messages != [] {
      var before, m := messages[..|messages| - 1], messages[|messages| - 1];
      CutIsTheLog(before, max);
      var (complete, rest) := Cut(before, max);
      assert messages == before + [m];
      ConcatOne(before, m);
      ConcatOne(complete, rest + m);
      assert (Concat(complete) + rest) + m == Concat(complete) + (rest + m);
      assert forall c | c in complete && max > 0 :: exists x | x in messages :: |c| < max + |x| by {
        forall c | c in complete && max > 0 ensures exists x | x in messages :: |c| < max + |x| {
          var x :| x in before && |c| < max + |x|;
          assert x in messages;
        }
      }
      assert |rest + m| < max + |m| || max == 0;
      var r := Cut(messages, max);
      assert r == CutOne(complete, rest, m, max);
      assert m in messages;
      if |rest + m| >= max {
        assert (Concat(complete) + (rest + m)) + "" == Concat(complete) + (rest + m);
      }
    }
  }

  lemma NothingIsEmpty()
    ensures Concat([]) == ""
  {
  }

  function Content(fs: Files, name: string): string {
    match At(fs, name) case Missing => "" case File(c) => c
  }

  /** Backups i down to 1, and then the current file. */
  function Reading(fs: Files, fileName: string, width: nat, i: nat): string {
    if i == 0 then Content(fs, fileName)
    else Content(fs, Backup(fileName, width, i)) + Reading(fs, fileName, width, i - 1)
  }

  lemma {:induction false} ReadingIs(fs: Files, fileName: string, width: nat, n: nat, complete: seq<string>, rest: string, i: nat)
    requires Holds(fs, fileName, width, n, complete, rest) && i <= n
    ensures Reading(fs, fileName, width, i) == Concat(complete[if i <= |complete| then |complete| - i else 0..]) + rest
  {
    hide Backup;
    if i == 0 {
      assert complete[|complete|..] == [] && "" + rest == rest;
    } else {
      ReadingIs(fs, fileName, width, n, complete, rest, i - 1);
      assert "" + Reading(fs, fileName, width, i - 1) == Reading(fs, fileName, width, i - 1);
      if i <= |complete| {
        var tail := complete[|complete| - i..];
        assert tail[1..] == complete[|complete| - (i - 1)..];
        assert tail[0] + (Concat(tail[1..]) + rest) == (tail[0] + Concat(tail[1..])) + rest;
      }
    }
  }

  /** What is left on the disk, read oldest first, is the end of everything that was
      ever appended; only whole files are missing in front, and none before the
      backups are all used. */
  lemma DirectoryIsTheEndOfTheLog(fs: Files, fileName: string, width: nat, n: nat, messages: seq<string>, max: nat)
    requires Holds(fs, fileName, width, n, Cut(messages, max).0, Cut(messages, max).1)
    ensures var complete := Cut(messages, max).0; var k := if n <= |complete| then |complete| - n else 0;
      Concat(messages) == Concat(complete[..k]) + Reading(fs, fileName, width, n)
  {
    hide Concat, Holds, Reading, Cut;
    var (complete, rest) := Cut(messages, max);
    var k := if n <= |complete| then |complete| - n else 0;
    CutIsTheLog(messages, max);
    ReadingIs(fs, fileName, width, n, complete, rest, n);
    assert complete == complete[..k] + complete[k..];
    ConcatSplit(complete[..k], complete[k..]);
    assert (Concat(complete[..k]) + Concat(complete[k..])) + rest == Concat(complete[..k]) + (Concat(complete[k..]) + rest);
  }
}
