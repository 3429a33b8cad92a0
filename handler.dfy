/**
 * The file output writers of pkg/handler.go: a handler that writes numbered
 * files and rotates them by size, a handler that writes one file per day,
 * the shared pruning of old `.log` files, and the handler that discards
 * everything.
 *
 * A folder is a `Directory` object holding a map from file names (relative
 * to the folder) to contents. What the operating system reports for opening
 * or removing a file is given by the `Faults` oracle; writes to an open file
 * always succeed.
 */
module Handlers {
  import opened Errors
  import opened Text
  import opened Order

  type uint32 = x: int | 0 <= x < 0x1_0000_0000

  /** A folder: each file's name and its contents. */
  class Directory {
    var files: map<Bytes, Bytes>

    constructor (files: map<Bytes, Bytes>)
      ensures this.files == files
    {
      this.files := files;
    }
  }

  /** What the operating system answers when a file of the folder is opened
      for appending, or removed. */
  datatype Faults = Faults(open: Bytes -> Option<Error>, remove: Bytes -> Option<Error>)

  ghost predicate NoFailures(remove: Bytes -> Option<Error>) {
    forall n :: remove(n).None?
  }

  // ------------------------------------------------------------ verifyFiles

  /** The names the pattern `*.log` matches inside the folder: `*` stands for
      any run of bytes without a path separator, so files in subfolders are
      not listed (`LogPattern` checks this against `Matches`). */
  predicate IsLogName(n: Bytes) {
    |n| >= 4 && n[|n| - 4..] == ".log" && '/' !in n
  }

  /** The pattern verifyFiles lists the folder with. */
  const LogGlob: Bytes := "*.log"

  /** Glob matching for patterns made of `*` and literal bytes, as
      `filepath.Match` does it: `*` matches any run of bytes without a path
      separator, every other byte matches itself. */
  function Matches(pattern: Bytes, name: Bytes): bool
    decreases |pattern| + |name|
  {
    if pattern == [] then name == []
    else if pattern[0] == '*' then
      Matches(pattern[1..], name) || (name != [] && name[0] != '/' && Matches(pattern, name[1..]))
    else name != [] && name[0] == pattern[0] && Matches(pattern[1..], name[1..])
  }

  /** A pattern without `*` matches only itself. */
  lemma {:induction false} LiteralMatches(pattern: Bytes, name: Bytes)
    requires '*' !in pattern
    ensures Matches(pattern, name) <==> name == pattern
  {
    if pattern != [] && name != [] {
      LiteralMatches(pattern[1..], name[1..]);
      assert name == pattern <==> name[0] == pattern[0] && name[1..] == pattern[1..] by {
        if name[0] == pattern[0] && name[1..] == pattern[1..] {
          assert name == [name[0]] + name[1..] && pattern == [pattern[0]] + pattern[1..];
        }
      }
    }
  }

  /** `*.log` matches exactly the log names. */
  lemma {:induction false} LogPattern(n: Bytes)
    ensures Matches(LogGlob, n) <==> IsLogName(n)
    decreases |n|
  {
    assert LogGlob[0] == '*' && LogGlob[1..] == ".log";
    LiteralMatches(".log", n);
    if n != [] {
      LogPattern(n[1..]);
      assert '/' !in n <==> n[0] != '/' && '/' !in n[1..] by {
        assert n == [n[0]] + n[1..];
      }
      if |n| >= 5 {
        assert n[1..][|n[1..]| - 4..] == n[|n| - 4..];
      }
    }
  }

  function LogFiles(files: map<Bytes, Bytes>): (r: set<Bytes>)
    ensures forall n :: n in r <==> n in files && IsLogName(n)
  {
    set n | n in files && IsLogName(n)
  }

  function Min(a: int, b: int): int { if a <= b then a else b }
  function Max(a: int, b: int): int { if a >= b then a else b }

  /** How many of `count` sorted files the removal loop visits: it stops as
      soon as no more than `limit` files would remain. */
  function DeleteCount(count: nat, limit: int): (k: nat)
    ensures k <= count
    ensures count - k == Min(count, Max(limit, 0))
    ensures k == count || count - k <= limit
    ensures k > 0 ==> count - (k - 1) > limit
  {
    if limit < 0 then count else if count <= limit then 0 else count - limit
  }

  /** The log files verifyFiles tries to remove: the first ones in name order. */
  ghost function Victims(files: map<Bytes, Bytes>, limit: int): (r: seq<Bytes>)
    ensures |r| == DeleteCount(|LogFiles(files)|, limit)
  {
    var names := LogFiles(files);
    SortedNamesSpec(names);
    SortedNames(names)[..DeleteCount(|names|, limit)]
  }

  /** The folder after trying to remove each of `victims`: a file stays when
      its removal fails. */
  function Removal(files: map<Bytes, Bytes>, victims: seq<Bytes>, remove: Bytes -> Option<Error>)
    : (r: map<Bytes, Bytes>)
    ensures forall n :: n in r <==> n in files && !(n in victims && remove(n).None?)
    ensures forall n :: n in r ==> r[n] == files[n]
  {
    map n | n in files && !(n in victims && remove(n).None?) :: files[n]
  }

  /** The victims whose removal succeeds. */
  function Removed(victims: seq<Bytes>, remove: Bytes -> Option<Error>): set<Bytes> {
    set v | v in victims && remove(v).None?
  }

  /** Trying to remove log files takes away exactly the log files whose
      removal succeeds, so the count drops by their number. */
  lemma RemovalCount(files: map<Bytes, Bytes>, victims: seq<Bytes>, remove: Bytes -> Option<Error>)
    requires forall v :: v in victims ==> v in LogFiles(files)
    ensures LogFiles(Removal(files, victims, remove)) == LogFiles(files) - Removed(victims, remove)
    ensures |LogFiles(Removal(files, victims, remove))| == |LogFiles(files)| - |Removed(victims, remove)|
  {
    assert LogFiles(Removal(files, victims, remove)) == LogFiles(files) - Removed(victims, remove);
    DifferenceSize(LogFiles(files), Removed(victims, remove));
  }

  /** What each removal reports, in order. */
  function Outcomes(victims: seq<Bytes>, remove: Bytes -> Option<Error>): (r: seq<Option<Error>>)
    ensures |r| == |victims|
    ensures forall i :: 0 <= i < |r| ==> r[i] == remove(victims[i])
  {
    if victims == [] then []
    else Outcomes(victims[..|victims| - 1], remove) + [remove(victims[|victims| - 1])]
  }

  ghost function Pruned(files: map<Bytes, Bytes>, limit: int, remove: Bytes -> Option<Error>): map<Bytes, Bytes> {
    Removal(files, Victims(files, limit), remove)
  }

  ghost function PruneError(files: map<Bytes, Bytes>, limit: int, remove: Bytes -> Option<Error>): Option<Error> {
    JoinEach(None, Outcomes(Victims(files, limit), remove))
  }

  /** One more attempted removal, as one more turn of the removal loop. */
  lemma RemovalSnoc(files: map<Bytes, Bytes>, vs: seq<Bytes>, v: Bytes, remove: Bytes -> Option<Error>)
    ensures Removal(files, vs + [v], remove)
         == if remove(v).None? then Removal(files, vs, remove) - {v} else Removal(files, vs, remove)
  {
  }

  lemma OutcomesSnoc(vs: seq<Bytes>, v: Bytes, remove: Bytes -> Option<Error>)
    ensures Outcomes(vs + [v], remove) == Outcomes(vs, remove) + [remove(v)]
  {
    assert (vs + [v])[..|vs|] == vs;
  }

  lemma RemovalStep(before: map<Bytes, Bytes>, files: seq<Bytes>, f: nat, remove: Bytes -> Option<Error>)
    requires f < |files|
    ensures Removal(before, files[..f + 1], remove)
         == if remove(files[f]).None? then Removal(before, files[..f], remove) - {files[f]}
            else Removal(before, files[..f], remove)
    ensures Outcomes(files[..f + 1], remove) == Outcomes(files[..f], remove) + [remove(files[f])]
  {
    assert files[..f + 1] == files[..f] + [files[f]];
    RemovalSnoc(before, files[..f], files[f], remove);
    OutcomesSnoc(files[..f], files[f], remove);
  }

  /** The removal loop of verifyFiles over the sorted names `files`. */
  method RemoveOldest(dir: Directory, files: seq<Bytes>, limit: int, remove: Bytes -> Option<Error>)
    returns (err: Option<Error>)
    modifies dir
    ensures dir.files == Removal(old(dir.files), files[..DeleteCount(|files|, limit)], remove)
    ensures err == JoinEach(None, Outcomes(files[..DeleteCount(|files|, limit)], remove))
  {
    err := None;
    var f, lFiles := 0, |files|;
    ghost var k := DeleteCount(lFiles, limit);
    ghost var outcomes: seq<Option<Error>> := [];
    while f < lFiles && lFiles - f > limit
      invariant 0 <= f <= k
      invariant dir.files == Removal(old(dir.files), files[..f], remove)
      invariant outcomes == Outcomes(files[..f], remove)
      invariant err == JoinEach(None, outcomes)
    {
      var e := remove(files[f]);
      assert Removal(old(dir.files), files[..f + 1], remove)
          == (if e.None? then dir.files - {files[f]} else dir.files)
        && Outcomes(files[..f + 1], remove) == outcomes + [e]
      by {
        RemovalStep(old(dir.files), files, f, remove);
      }
      assert JoinEach(None, outcomes + [e]) == Join([err, e]) by {
        JoinEachSnoc(None, outcomes, e);
      }
      if e.None? {
        dir.files := dir.files - {files[f]};
      }
      err := Join([err, e]);
      outcomes := outcomes + [e];
      f := f + 1;
    }
    assert f == DeleteCount(lFiles, limit);
  }

  /** Go's verifyFiles: list the folder's `.log` files, sort their names and
      remove from the front while more than `limit` would remain, joining
      every removal error onto the result. */
  method VerifyFiles(dir: Directory, limit: int, remove: Bytes -> Option<Error>) returns (err: Option<Error>)
    modifies dir
    ensures dir.files == Pruned(old(dir.files), limit, remove)
    ensures err == PruneError(old(dir.files), limit, remove)
  {
    var names := set n | n in dir.files && IsLogName(n);
    assert names == LogFiles(dir.files);
    var files := SortStrings(names);
    SortedNamesSpec(names);
    assert files[..DeleteCount(|files|, limit)] == Victims(dir.files, limit);
    err := RemoveOldest(dir, files, limit, remove);
  }

  // ------------------------------------------------------- pruning lemmas

  lemma VictimsAreOldest(files: map<Bytes, Bytes>, limit: int)
    ensures forall v :: v in Victims(files, limit) ==> v in LogFiles(files)
    ensures forall v, n :: v in Victims(files, limit) && n in LogFiles(files) && n !in Victims(files, limit)
                         ==> Below(v, n)
  {
    var names := LogFiles(files);
    SortedNamesSpec(names);
    var sorted := SortedNames(names);
    var k := DeleteCount(|names|, limit);
    forall v, n | v in sorted[..k] && n in names && n !in sorted[..k]
      ensures Below(v, n)
    {
      var i :| 0 <= i < k && sorted[i] == v;
      assert n in Elements(sorted);
      var j :| 0 <= j < |sorted| && sorted[j] == n;
    }
    forall v | v in sorted[..k] ensures v in names {
      assert v in Elements(sorted);
    }
  }

  /** The folder loses only log files, and only those that are older (in name
      order) than every log file it keeps, apart from those whose removal
      failed. Contents of what stays are unchanged. */
  lemma PrunedRemovesOldestLogs(files: map<Bytes, Bytes>, limit: int, remove: Bytes -> Option<Error>)
    ensures forall n :: n in Pruned(files, limit, remove) ==> n in files && Pruned(files, limit, remove)[n] == files[n]
    ensures forall n :: n in files && !IsLogName(n) ==> n in Pruned(files, limit, remove)
    ensures forall v, n :: v in files && v !in Pruned(files, limit, remove) && n in LogFiles(Pruned(files, limit, remove))
                         ==> Below(v, n) || n in Victims(files, limit)
  {
    VictimsAreOldest(files, limit);
  }

  lemma {:induction false} DistinctElements(s: seq<Bytes>)
    requires forall i, j :: 0 <= i < j < |s| ==> s[i] != s[j]
    ensures |Elements(s)| == |s|
  {
    if s != [] {
      var init := s[..|s| - 1];
      DistinctElements(init);
      assert Elements(s) == Elements(init) + {s[|s| - 1]};
      assert s[|s| - 1] !in Elements(init);
    }
  }

  lemma VictimsDistinct(files: map<Bytes, Bytes>, limit: int)
    ensures |Elements(Victims(files, limit))| == |Victims(files, limit)|
    ensures Elements(Victims(files, limit)) <= LogFiles(files)
  {
    var names := LogFiles(files);
    SortedNamesSpec(names);
    var victims := Victims(files, limit);
    assert victims == SortedNames(names)[..|victims|];
    forall i, j | 0 <= i < j < |victims| ensures victims[i] != victims[j] {
      BelowIrreflexive(victims[i]);
    }
    DistinctElements(victims);
    VictimsAreOldest(files, limit);
  }

  lemma DifferenceSize(a: set<Bytes>, b: set<Bytes>)
    requires b <= a
    ensures |a - b| == |a| - |b|
  {
    assert a == (a - b) + b && (a - b) * b == {};
  }

  lemma PrunedLogs(files: map<Bytes, Bytes>, limit: int, remove: Bytes -> Option<Error>)
    requires NoFailures(remove)
    ensures LogFiles(Pruned(files, limit, remove)) == LogFiles(files) - Elements(Victims(files, limit))
  {
  }

  /** When every removal succeeds, exactly `limit` log files remain (all of
      them if there are fewer, none if `limit` is negative), and the result is
      nil. */
  lemma PrunedCount(files: map<Bytes, Bytes>, limit: int, remove: Bytes -> Option<Error>)
    requires NoFailures(remove)
    ensures |LogFiles(Pruned(files, limit, remove))| == Min(|LogFiles(files)|, Max(limit, 0))
    ensures PruneError(files, limit, remove).None?
  {
    var names, gone := LogFiles(files), Elements(Victims(files, limit));
    assert |gone| == DeleteCount(|names|, limit) && gone <= names by {
      VictimsDistinct(files, limit);
    }
    assert LogFiles(Pruned(files, limit, remove)) == names - gone by {
      PrunedLogs(files, limit, remove);
    }
    DifferenceSize(names, gone);
    assert PruneError(files, limit, remove).None? by {
      PruneErrorIff(files, limit, remove);
    }
  }

  /** With no more log files than the limit, nothing is removed and the
      result is nil; an empty folder in particular is left alone. */
  lemma PrunedWithinLimit(files: map<Bytes, Bytes>, limit: int, remove: Bytes -> Option<Error>)
    requires |LogFiles(files)| <= limit
    ensures Pruned(files, limit, remove) == files
    ensures PruneError(files, limit, remove).None?
  {
    assert Victims(files, limit) == [];
  }

  /** The result is nil exactly when every attempted removal succeeds. */
  lemma PruneErrorIff(files: map<Bytes, Bytes>, limit: int, remove: Bytes -> Option<Error>)
    ensures PruneError(files, limit, remove).None?
        <==> forall v :: v in Victims(files, limit) ==> remove(v).None?
  {
    var victims := Victims(files, limit);
    JoinEachNilIff(None, Outcomes(victims, remove));
    var o := Outcomes(victims, remove);
    if forall i :: 0 <= i < |o| ==> o[i].None? {
      forall v | v in victims ensures remove(v).None? {
        var i :| 0 <= i < |victims| && victims[i] == v;
        assert o[i].None?;
      }
    }
  }

  // -------------------------------------------------- file-name helpers

  /** The contents of `name`, empty when the file does not exist yet. */
  function Contents(files: map<Bytes, Bytes>, name: Bytes): Bytes {
    if name in files then files[name] else []
  }

  /** Opening with O_CREATE|O_APPEND and writing `data`. */
  function Appended(files: map<Bytes, Bytes>, name: Bytes, data: Bytes): (r: map<Bytes, Bytes>)
    ensures name in r && r[name] == Contents(files, name) + data
    ensures forall n :: n != name ==> (n in r <==> n in files) && (n in files ==> r[n] == files[n])
  {
    files[name := Contents(files, name) + data]
  }

  lemma AppendedTwice(files: map<Bytes, Bytes>, name: Bytes, a: Bytes, b: Bytes)
    ensures Appended(Appended(files, name, a), name, b) == Appended(files, name, a + b)
  {
    assert Contents(files, name) + a + b == Contents(files, name) + (a + b);
  }

  /** The line break a file handler writes after each message. */
  const LineBreak: Bytes := "\n"

  /** What a file handler writes for one message: the trimmed message and a
      line break. */
  function Line(msg: Bytes): Bytes {
    var t := TrimSpace(msg); t + LineBreak
  }

  // ------------------------------------------ CyclicOverwritingFilesHandler

  /** The name of the `index`-th file: prefix, '.', `%0.8X` of the index,
      ".log". */
  function FileName(prefix: Bytes, index: nat): Bytes {
    prefix + "." + Hex8(index) + ".log"
  }

  /** The rotating handler's files are listed by `*.log` exactly when the
      prefix holds no path separator. Names are kept as given: the cleaning
      `path.Join` applies to a prefix such as "./err" is not modelled. */
  lemma FileNameIsLog(prefix: Bytes, index: nat)
    ensures IsLogName(FileName(prefix, index)) <==> '/' !in prefix
  {
    var n := FileName(prefix, index);
    assert n[|n| - 4..] == ".log";
    Hex8Properties(index);
    var hex := Hex8(index);
    assert n == prefix + ("." + hex + ".log");
    assert '/' !in "." + hex + ".log" by {
      forall i | 0 <= i < |"." + hex + ".log"| ensures ("." + hex + ".log")[i] != '/' {
        if 1 <= i < 1 + |hex| {
          assert ("." + hex + ".log")[i] == hex[i - 1];
        }
      }
    }
  }

  /** While the index fits in 32 bits, a later file's name sorts after an
      earlier one's, so pruning removes the oldest files first. */
  lemma FileNameOrder(prefix: Bytes, i: nat, j: nat)
    requires i < j < Pow(16, 8)
    ensures Below(FileName(prefix, i), FileName(prefix, j))
  {
    var hi, hj := Padded(16, 8, i), Padded(16, 8, j);
    PaddedOrder(16, 8, i, j);
    BelowEqualLengthPrefix(hi, hj, ".log", ".log");
    BelowCommonPrefix(prefix + ".", hi + ".log", hj + ".log");
    assert FileName(prefix, i) == (prefix + ".") + (hi + ".log");
    assert FileName(prefix, j) == (prefix + ".") + (hj + ".log");
  }

  /** The writer CyclicOverwritingFilesHandler returns, with the state its
      closure captures. */
  class CyclicFilesHandler {
    const dir: Directory
    const prefix: Bytes
    const maxFileCapacity: uint32
    const maxFilesInFolder: int
    var fileSize: nat
    var index: nat
    var fileName: Bytes

    ghost predicate Valid()
      reads this
    {
      index >= 1 && fileName == FileName(prefix, index) && fileSize <= maxFileCapacity
    }

    /** Go's CyclicOverwritingFilesHandler: nothing is written until the
        first message; the first file is number 1. */
    constructor (dir: Directory, prefix: Bytes, maxFileCapacity: uint32, maxFilesInFolder: int)
      ensures Valid()
      ensures this.dir == dir && this.prefix == prefix
      ensures this.maxFileCapacity == maxFileCapacity && this.maxFilesInFolder == maxFilesInFolder
      ensures fileSize == 0 && index == 1
    {
      this.dir := dir;
      this.prefix := prefix;
      this.maxFileCapacity := maxFileCapacity;
      this.maxFilesInFolder := maxFilesInFolder;
      fileSize := 0;
      index := 1;
      fileName := prefix + "." + Hex8(1) + ".log";
    }

    /** One message: if the current file cannot be opened, its error and
        nothing else. Otherwise the trimmed message and a line break are
        appended to the current file; when that takes the file past the
        capacity, the next write goes to a new file and the folder is pruned
        to `maxFilesInFolder` log files. */
    method Write(msg: Bytes, faults: Faults) returns (n: int, err: Option<Error>)
      requires Valid()
      modifies this`fileSize, this`index, this`fileName, dir
      ensures Valid()
      ensures faults.open(old(fileName)).Some? ==>
                && n == 0 && err == faults.open(old(fileName))
                && dir.files == old(dir.files)
                && fileSize == old(fileSize) && index == old(index)
      ensures faults.open(old(fileName)).None? ==>
                var written := Appended(old(dir.files), old(fileName), Line(msg));
                && n == |Line(msg)| == |TrimSpace(msg)| + 1
                && (if old(fileSize) + n > maxFileCapacity then
                      && fileSize == 0 && index == old(index) + 1
                      && dir.files == Pruned(written, maxFilesInFolder, faults.remove)
                      && err == Join([None, PruneError(written, maxFilesInFolder, faults.remove)])
                    else
                      && fileSize == old(fileSize) + n && index == old(index)
                      && dir.files == written && err.None?)
    {
      err := faults.open(fileName);
      if err.Some? {
        return 0, err;
      }
      var l := AppendLine(dir, fileName, TrimSpace(msg));
      fileSize := fileSize + l;
      if fileSize > maxFileCapacity {
        var e := Rotate(faults.remove);
        err := Join([err, e]);
      }
      n := l;
    }

    /** The size limit was passed: the next write goes to the next file, and
        the folder is pruned. */
    method Rotate(remove: Bytes -> Option<Error>) returns (e: Option<Error>)
      modifies this`fileSize, this`index, this`fileName, dir
      ensures fileSize == 0 && index == old(index) + 1 && fileName == FileName(prefix, index)
      ensures dir.files == Pruned(old(dir.files), maxFilesInFolder, remove)
      ensures e == PruneError(old(dir.files), maxFilesInFolder, remove)
    {
      fileSize := 0;
      index := index + 1;
      fileName := prefix + "." + Hex8(index) + ".log";
      e := VerifyFiles(dir, maxFilesInFolder, remove);
    }
  }

  /** The two writes to an opened file: the (trimmed) message, then a line
      break; the count is what both wrote. */
  method AppendLine(dir: Directory, fileName: Bytes, data: Bytes) returns (l: nat)
    modifies dir
    ensures dir.files == Appended(old(dir.files), fileName, data + LineBreak)
    ensures l == |data| + 1
  {
    AppendedTwice(dir.files, fileName, data, LineBreak);
    l := 0;
    dir.files := Appended(dir.files, fileName, data);
    l := l + |data|;
    dir.files := Appended(dir.files, fileName, LineBreak);
    l := l + 1;
  }

  // ------------------------------------------- the rotating handler's scenario

  /** With exactly one log file more than the limit, verifyFiles tries to
      remove the oldest one and no other. */
  lemma OnlyOldestVictim(files: map<Bytes, Bytes>, limit: nat, oldest: Bytes)
    requires |LogFiles(files)| == limit + 1
    requires IsLeast(oldest, LogFiles(files))
    ensures Victims(files, limit) == [oldest]
  {
    var victims := Victims(files, limit);
    VictimsAreOldest(files, limit);
    var v := victims[0];
    assert victims == [v];
    assert IsLeast(v, LogFiles(files));
    LeastUnique(v, oldest, LogFiles(files));
  }

  /** A message with no white space at either end is written as it is. */
  lemma LineOfTrimmed(msg: Bytes)
    requires Trimmed(msg)
    ensures Line(msg) == msg + LineBreak
  {
    TrimSpaceOfTrimmed(msg);
  }

  /** The first four file names of a prefix without '/': all listed by
      `*.log`, pairwise different, and the first one sorts first. */
  lemma FirstFileNames(prefix: Bytes, f1: Bytes, f2: Bytes, f3: Bytes, f4: Bytes)
    requires '/' !in prefix
    requires f1 == FileName(prefix, 1) && f2 == FileName(prefix, 2)
    requires f3 == FileName(prefix, 3) && f4 == FileName(prefix, 4)
    ensures IsLogName(f1) && IsLogName(f2) && IsLogName(f3) && IsLogName(f4)
    ensures f1 != f2 && f1 != f3 && f1 != f4 && f2 != f3 && f2 != f4 && f3 != f4
    ensures IsLeast(f1, {f1, f2, f3, f4})
  {
    assert Pow(16, 8) > 4;
    FileNameIsLog(prefix, 1);
    FileNameIsLog(prefix, 2);
    FileNameIsLog(prefix, 3);
    FileNameIsLog(prefix, 4);
    forall i, j | 1 <= i < j <= 4
      ensures Below(FileName(prefix, i), FileName(prefix, j))
      ensures FileName(prefix, i) != FileName(prefix, j)
    {
      FileNameOrder(prefix, i, j);
      BelowIrreflexive(FileName(prefix, i));
    }
  }

  /** Removing the oldest of four distinct names leaves the other three. */
  lemma RemoveFirstOfFour(f1: Bytes, f2: Bytes, f3: Bytes, f4: Bytes, c1: Bytes, c2: Bytes, c3: Bytes, c4: Bytes)
    requires f1 != f2 && f1 != f3 && f1 != f4
    ensures map[f1 := c1, f2 := c2, f3 := c3, f4 := c4] - {f1} == map[f2 := c2, f3 := c3, f4 := c4]
  {
  }

  /** Nothing the file system is asked to do fails. */
  ghost predicate Flawless(faults: Faults) {
    (forall n :: faults.open(n).None?) && NoFailures(faults.remove)
  }

  /** Appending to a log file of a folder holding only log files: the listed
      names are the old ones and that file. */
  lemma AppendedLogs(files: map<Bytes, Bytes>, name: Bytes, data: Bytes)
    requires forall n :: n in files ==> IsLogName(n)
    requires IsLogName(name)
    ensures forall n :: n in Appended(files, name, data) ==> IsLogName(n)
    ensures LogFiles(Appended(files, name, data)) == files.Keys + {name}
  {
  }

  lemma AppendedNew(files: map<Bytes, Bytes>, name: Bytes, data: Bytes)
    requires name !in files
    ensures Appended(files, name, data) == files[name := data]
  {
    assert Contents(files, name) + data == data;
  }

  lemma AppendedOld(files: map<Bytes, Bytes>, name: Bytes, data: Bytes)
    requires name in files
    ensures Appended(files, name, data) == files[name := files[name] + data]
  {
  }

  /** Writing file 4 next to files 1 to 3 lists four log files, file 1 the
      oldest. */
  lemma FourthName(prefix: Bytes, files: map<Bytes, Bytes>, data: Bytes)
    requires '/' !in prefix
    requires files.Keys == {FileName(prefix, 1), FileName(prefix, 2), FileName(prefix, 3)}
    ensures FileName(prefix, 4) !in files
    ensures |LogFiles(Appended(files, FileName(prefix, 4), data))| == 4
    ensures IsLeast(FileName(prefix, 1), LogFiles(Appended(files, FileName(prefix, 4), data)))
  {
    FirstFileNames(prefix, FileName(prefix, 1), FileName(prefix, 2), FileName(prefix, 3), FileName(prefix, 4));
    FourLogs(files, FileName(prefix, 1), FileName(prefix, 2), FileName(prefix, 3), FileName(prefix, 4), data);
  }

  /** Adding a fourth distinct log name to a folder of three. */
  lemma FourLogs(files: map<Bytes, Bytes>, f1: Bytes, f2: Bytes, f3: Bytes, f4: Bytes, data: Bytes)
    requires IsLogName(f1) && IsLogName(f2) && IsLogName(f3) && IsLogName(f4)
    requires f1 != f2 && f1 != f3 && f1 != f4 && f2 != f3 && f2 != f4 && f3 != f4
    requires IsLeast(f1, {f1, f2, f3, f4})
    requires files.Keys == {f1, f2, f3}
    ensures f4 !in files
    ensures |LogFiles(Appended(files, f4, data))| == 4
    ensures IsLeast(f1, LogFiles(Appended(files, f4, data)))
  {
    AppendedLogs(files, f4, data);
    assert files.Keys + {f4} == {f1, f2, f3, f4};
  }

  /** A write that keeps to the current file. */
  method WriteWithin(h: CyclicFilesHandler, msg: Bytes, faults: Faults) returns (e: Option<Error>)
    requires h.Valid() && Flawless(faults) && Trimmed(msg)
    requires h.fileSize + |msg| + 1 <= h.maxFileCapacity
    modifies h`fileSize, h`index, h`fileName, h.dir
    ensures h.Valid() && e.None?
    ensures h.index == old(h.index) && h.fileName == old(h.fileName) && h.fileSize == old(h.fileSize) + |msg| + 1
    ensures h.dir.files == Appended(old(h.dir.files), h.fileName, msg + LineBreak)
  {
    LineOfTrimmed(msg);
    var n;
    n, e := h.Write(msg, faults);
  }

  /** A write that passes the capacity while the folder holds no more log
      files than the limit: the handler moves to the next file and removes
      nothing. */
  method WriteRotating(h: CyclicFilesHandler, msg: Bytes, faults: Faults) returns (e: Option<Error>)
    requires h.Valid() && Flawless(faults) && Trimmed(msg)
    requires h.fileSize + |msg| + 1 > h.maxFileCapacity
    requires |LogFiles(Appended(h.dir.files, h.fileName, msg + LineBreak))| <= h.maxFilesInFolder
    modifies h`fileSize, h`index, h`fileName, h.dir
    ensures h.Valid() && e.None?
    ensures h.index == old(h.index) + 1 && h.fileSize == 0 && h.fileName == FileName(h.prefix, old(h.index) + 1)
    ensures h.dir.files == Appended(old(h.dir.files), old(h.fileName), msg + LineBreak)
  {
    LineOfTrimmed(msg);
    PrunedWithinLimit(Appended(h.dir.files, h.fileName, msg + LineBreak), h.maxFilesInFolder, faults.remove);
    var n;
    n, e := h.Write(msg, faults);
  }

  /** A write that passes the capacity when the folder then holds one log file
      more than the limit: the oldest one is removed. */
  method WriteRemovingOldest(h: CyclicFilesHandler, msg: Bytes, faults: Faults, oldest: Bytes)
    returns (e: Option<Error>)
    requires h.Valid() && Flawless(faults) && Trimmed(msg) && h.maxFilesInFolder >= 0
    requires h.fileSize + |msg| + 1 > h.maxFileCapacity
    requires |LogFiles(Appended(h.dir.files, h.fileName, msg + LineBreak))| == h.maxFilesInFolder + 1
    requires IsLeast(oldest, LogFiles(Appended(h.dir.files, h.fileName, msg + LineBreak)))
    modifies h`fileSize, h`index, h`fileName, h.dir
    ensures h.Valid() && e.None?
    ensures h.index == old(h.index) + 1 && h.fileSize == 0 && h.fileName == FileName(h.prefix, old(h.index) + 1)
    ensures h.dir.files == Appended(old(h.dir.files), old(h.fileName), msg + LineBreak) - {oldest}
  {
    LineOfTrimmed(msg);
    ghost var written := Appended(h.dir.files, h.fileName, msg + LineBreak);
    OnlyOldestVictim(written, h.maxFilesInFolder, oldest);
    PruneErrorIff(written, h.maxFilesInFolder, faults.remove);
    var n;
    n, e := h.Write(msg, faults);
  }

  /** The scenario's handler before its first write: capacity 7, at most 3
      files, an empty folder and a prefix without a path separator. */
  ghost predicate ScenarioStart(h: CyclicFilesHandler)
    reads h, h.dir
  {
    && h.Valid() && h.index == 1 && h.fileSize == 0 && h.dir.files == map[]
    && h.maxFileCapacity == 7 && h.maxFilesInFolder == 3 && '/' !in h.prefix
  }

  /** Two 2-byte messages fill file 1 and a third passes the capacity. */
  method FirstFile(h: CyclicFilesHandler, faults: Faults, m1: Bytes, m2: Bytes, m3: Bytes)
    returns (e1: Option<Error>, e2: Option<Error>, e3: Option<Error>)
    requires ScenarioStart(h) && Flawless(faults)
    requires |m1| == 2 && |m2| == 2 && |m3| == 2 && Trimmed(m1) && Trimmed(m2) && Trimmed(m3)
    modifies h`fileSize, h`index, h`fileName, h.dir
    ensures h.Valid() && h.index == 2 && h.fileSize == 0
    ensures h.dir.files == map[FileName(h.prefix, 1) := m1 + LineBreak + (m2 + LineBreak) + (m3 + LineBreak)]
    ensures e1.None? && e2.None? && e3.None?
  {
    var f1 := h.fileName;
    FileNameIsLog(h.prefix, 1);
    AppendedNew(map[], f1, m1 + LineBreak);
    e1 := WriteWithin(h, m1, faults);
    AppendedOld(h.dir.files, f1, m2 + LineBreak);
    e2 := WriteWithin(h, m2, faults);
    AppendedOld(h.dir.files, f1, m3 + LineBreak);
    AppendedLogs(h.dir.files, f1, m3 + LineBreak);
    assert h.dir.files.Keys + {f1} == {f1};
    e3 := WriteRotating(h, m3, faults);
  }

  /** File 2 takes a 1-byte message, and a 5-byte one passes the capacity. */
  method SecondFile(h: CyclicFilesHandler, faults: Faults, m4: Bytes, m5: Bytes)
    returns (e4: Option<Error>, e5: Option<Error>)
    requires h.Valid() && Flawless(faults) && h.index == 2 && h.fileSize == 0
    requires h.maxFileCapacity == 7 && h.maxFilesInFolder == 3 && '/' !in h.prefix
    requires h.dir.files.Keys == {FileName(h.prefix, 1)}
    requires |m4| == 1 && |m5| == 5 && Trimmed(m4) && Trimmed(m5)
    modifies h`fileSize, h`index, h`fileName, h.dir
    ensures h.Valid() && h.index == 3 && h.fileSize == 0
    ensures h.dir.files == old(h.dir.files)[FileName(h.prefix, 2) := m4 + LineBreak + (m5 + LineBreak)]
    ensures e4.None? && e5.None?
  {
    var f1, f2 := FileName(h.prefix, 1), h.fileName;
    FileNameIsLog(h.prefix, 1);
    FileNameIsLog(h.prefix, 2);
    assert Pow(16, 8) > 2;
    FileNameOrder(h.prefix, 1, 2);
    BelowIrreflexive(f1);
    AppendedNew(h.dir.files, f2, m4 + LineBreak);
    e4 := WriteWithin(h, m4, faults);
    AppendedOld(h.dir.files, f2, m5 + LineBreak);
    AppendedLogs(h.dir.files, f2, m5 + LineBreak);
    assert h.dir.files.Keys + {f2} == {f1, f2};
    e5 := WriteRotating(h, m5, faults);
  }

  /** A 10-byte message fills file 3 on its own; the rotation finds three log
      files and removes none. */
  method ThirdFile(h: CyclicFilesHandler, faults: Faults, m6: Bytes) returns (e6: Option<Error>)
    requires h.Valid() && Flawless(faults) && h.index == 3 && h.fileSize == 0
    requires h.maxFileCapacity == 7 && h.maxFilesInFolder == 3 && '/' !in h.prefix
    requires h.dir.files.Keys == {FileName(h.prefix, 1), FileName(h.prefix, 2)}
    requires |m6| == 10 && Trimmed(m6)
    modifies h`fileSize, h`index, h`fileName, h.dir
    ensures h.Valid() && h.index == 4 && h.fileSize == 0
    ensures h.dir.files == old(h.dir.files)[FileName(h.prefix, 3) := m6 + LineBreak]
    ensures e6.None?
  {
    var f1, f2, f3, f4 := FileName(h.prefix, 1), FileName(h.prefix, 2), h.fileName, FileName(h.prefix, 4);
    FirstFileNames(h.prefix, f1, f2, f3, f4);
    AppendedNew(h.dir.files, f3, m6 + LineBreak);
    AppendedLogs(h.dir.files, f3, m6 + LineBreak);
    assert h.dir.files.Keys + {f3} == {f1, f2, f3};
    e6 := WriteRotating(h, m6, faults);
  }

  /** A 10-byte message fills file 4 on its own; the rotation finds four log
      files and removes the oldest one, file 1. */
  method FourthFile(h: CyclicFilesHandler, faults: Faults, m7: Bytes) returns (e7: Option<Error>)
    requires h.Valid() && Flawless(faults) && h.index == 4 && h.fileSize == 0
    requires h.maxFileCapacity == 7 && h.maxFilesInFolder == 3 && '/' !in h.prefix
    requires h.dir.files.Keys == {FileName(h.prefix, 1), FileName(h.prefix, 2), FileName(h.prefix, 3)}
    requires |m7| == 10 && Trimmed(m7)
    modifies h`fileSize, h`index, h`fileName, h.dir
    ensures h.dir.files == old(h.dir.files)[FileName(h.prefix, 4) := m7 + LineBreak] - {FileName(h.prefix, 1)}
    ensures e7.None?
  {
    FourthName(h.prefix, h.dir.files, m7 + LineBreak);
    AppendedNew(h.dir.files, h.fileName, m7 + LineBreak);
    e7 := WriteRemovingOldest(h, m7, faults, FileName(h.prefix, 1));
  }

  /** Capacity 7, at most 3 files, an empty folder, a prefix without a path
      separator and nothing failing: three messages of 2 bytes, one of 1, one
      of 5 and two of 10, none with white space at either end, fill file 1
      with three lines, file 2 with two, files 3 and 4 with one each, and the
      last rotation removes file 1. No write reports an error. */
  method CyclicRun(prefix: Bytes, faults: Faults, m1: Bytes, m2: Bytes, m3: Bytes, m4: Bytes,
                   m5: Bytes, m6: Bytes, m7: Bytes)
    returns (files: map<Bytes, Bytes>, errs: seq<Option<Error>>)
    requires '/' !in prefix && Flawless(faults)
    requires |m1| == 2 && |m2| == 2 && |m3| == 2 && |m4| == 1 && |m5| == 5 && |m6| == 10 && |m7| == 10
    requires Trimmed(m1) && Trimmed(m2) && Trimmed(m3) && Trimmed(m4) && Trimmed(m5) && Trimmed(m6) && Trimmed(m7)
    ensures files == map[FileName(prefix, 2) := m4 + LineBreak + (m5 + LineBreak),
                         FileName(prefix, 3) := m6 + LineBreak,
                         FileName(prefix, 4) := m7 + LineBreak]
    ensures errs == [None, None, None, None, None, None, None]
  {
    var f1, f2, f3, f4 := FileName(prefix, 1), FileName(prefix, 2), FileName(prefix, 3), FileName(prefix, 4);
    FirstFileNames(prefix, f1, f2, f3, f4);
    var dir := new Directory(map[]);
    var h := new CyclicFilesHandler(dir, prefix, 7, 3);
    var e1, e2, e3 := FirstFile(h, faults, m1, m2, m3);
    ghost var c1 := m1 + LineBreak + (m2 + LineBreak) + (m3 + LineBreak);
    assert dir.files.Keys == {f1};
    var e4, e5 := SecondFile(h, faults, m4, m5);
    assert dir.files == map[f1 := c1, f2 := m4 + LineBreak + (m5 + LineBreak)];
    ghost var c2 := m4 + LineBreak + (m5 + LineBreak);
    var e6 := ThirdFile(h, faults, m6);
    assert dir.files == map[f1 := c1, f2 := c2, f3 := m6 + LineBreak];
    var e7 := FourthFile(h, faults, m7);
    assert dir.files == map[f1 := c1, f2 := c2, f3 := m6 + LineBreak, f4 := m7 + LineBreak] - {f1};
    files := dir.files;
    RemoveFirstOfFour(f1, f2, f3, f4, c1, c2, m6 + LineBreak, m7 + LineBreak);
    errs := [e1, e2, e3, e4, e5, e6, e7];
  }

  /** The contents the scenario's messages leave in files 2 to 4. */
  lemma ScenarioContents()
    ensures "4" + LineBreak + ("55555" + LineBreak) == "4\n55555\n"
    ensures "6666666666" + LineBreak == "6666666666\n" && "7777777777" + LineBreak == "7777777777\n"
  {
  }

  /** The rotating handler's scenario with the messages "11", "22", "33", "4",
      "55555", ten '6's and ten '7's: files 2, 3 and 4 remain, holding
      "4\n55555\n", "6666666666\n" and "7777777777\n". */
  method CyclicScenario(prefix: Bytes, faults: Faults) returns (files: map<Bytes, Bytes>, errs: seq<Option<Error>>)
    requires '/' !in prefix && Flawless(faults)
    ensures files == map[FileName(prefix, 2) := "4\n55555\n",
                         FileName(prefix, 3) := "6666666666\n",
                         FileName(prefix, 4) := "7777777777\n"]
    ensures errs == [None, None, None, None, None, None, None]
  {
    files, errs := CyclicRun(prefix, faults, "11", "22", "33", "4", "55555", "6666666666", "7777777777");
    ScenarioContents();
  }

  // ------------------------------------------------------ FilePerDaysHandler

  /** The calendar date of the moment a message is written. */
  datatype Date = Date(year: nat, month: nat, day: nat)

  predicate Calendar(d: Date) {
    d.year < 10000 && 1 <= d.month <= 12 && 1 <= d.day <= 31
  }

  predicate Earlier(a: Date, b: Date) {
    a.year < b.year
    || (a.year == b.year && a.month < b.month)
    || (a.year == b.year && a.month == b.month && a.day < b.day)
  }

  /** The year in the "2006" layout: at least four digits. */
  function YearText(y: nat): Bytes {
    if y < 10000 then Padded(10, 4, y) else DecimalDigits(y)
  }

  /** The day's file: the date in the "2006-01-02" layout (the month and the
      day with two digits each), then ".log". */
  function DayFileName(d: Date): Bytes {
    YearText(d.year) + ("-" + (Padded(10, 2, d.month) + ("-" + (Padded(10, 2, d.day) + ".log"))))
  }

  /** Between fields of equal width, the first field that differs decides. */
  lemma FieldOrder(x: Bytes, y: Bytes, rx: Bytes, ry: Bytes)
    requires |x| == |y|
    ensures Below(x, y) ==> Below(x + rx, y + ry)
    ensures x == y ==> Below(x + rx, y + ry) == Below(rx, ry)
  {
    if Below(x, y) {
      BelowEqualLengthPrefix(x, y, rx, ry);
    }
    if x == y {
      BelowCommonPrefix(x, rx, ry);
    }
  }

  /** The file of a later day sorts after the file of an earlier one, so
      pruning removes the oldest days first. */
  lemma DayFileNameOrder(a: Date, b: Date)
    requires Calendar(a) && Calendar(b) && Earlier(a, b)
    ensures Below(DayFileName(a), DayFileName(b))
  {
    var ya, yb := Padded(10, 4, a.year), Padded(10, 4, b.year);
    var ma, mb := Padded(10, 2, a.month), Padded(10, 2, b.month);
    var da, db := Padded(10, 2, a.day), Padded(10, 2, b.day);
    var tailA, tailB := da + ".log", db + ".log";
    var fromMonthA, fromMonthB := ma + ("-" + tailA), mb + ("-" + tailB);
    assert DayFileName(a) == ya + ("-" + fromMonthA) && DayFileName(b) == yb + ("-" + fromMonthB);
    if a.year < b.year {
      assert Below(ya, yb) by {
        PaddedOrder(10, 4, a.year, b.year);
      }
      FieldOrder(ya, yb, "-" + fromMonthA, "-" + fromMonthB);
    } else {
      assert Below(ya + ("-" + fromMonthA), yb + ("-" + fromMonthB)) == Below(fromMonthA, fromMonthB) by {
        FieldOrder(ya, yb, "-" + fromMonthA, "-" + fromMonthB);
        FieldOrder("-", "-", fromMonthA, fromMonthB);
      }
      if a.month < b.month {
        assert Below(ma, mb) by {
          PaddedOrder(10, 2, a.month, b.month);
        }
        FieldOrder(ma, mb, "-" + tailA, "-" + tailB);
      } else {
        assert Below(fromMonthA, fromMonthB) == Below(tailA, tailB) by {
          FieldOrder(ma, mb, "-" + tailA, "-" + tailB);
          FieldOrder("-", "-", tailA, tailB);
        }
        assert Below(da, db) by {
          PaddedOrder(10, 2, a.day, b.day);
        }
        FieldOrder(da, db, ".log", ".log");
      }
    }
  }

  /** The writer FilePerDaysHandler returns, with the state its closure
      captures. */
  class DailyFilesHandler {
    const dir: Directory
    const maxFilesInFolder: int
    var lastFileName: Bytes

    /** Go's FilePerDaysHandler: no file has been written yet. */
    constructor (dir: Directory, maxFilesInFolder: int)
      ensures this.dir == dir && this.maxFilesInFolder == maxFilesInFolder
      ensures lastFileName == []
    {
      this.dir := dir;
      this.maxFilesInFolder := maxFilesInFolder;
      lastFileName := [];
    }

    /** One message on day `today`: if the day's file cannot be opened, its
        error and nothing else. Otherwise the trimmed message and a line
        break are appended to the day's file, and on the first write to a file
        other than the previous one the folder, new file included, is pruned
        to `maxFilesInFolder` log files. */
    method Write(msg: Bytes, today: Date, faults: Faults) returns (n: int, err: Option<Error>)
      modifies this`lastFileName, dir
      ensures faults.open(DayFileName(today)).Some? ==>
                && n == 0 && err == faults.open(DayFileName(today))
                && dir.files == old(dir.files) && lastFileName == old(lastFileName)
      ensures faults.open(DayFileName(today)).None? ==>
                var written := Appended(old(dir.files), DayFileName(today), Line(msg));
                && n == |Line(msg)|
                && lastFileName == DayFileName(today)
                && (if old(lastFileName) != DayFileName(today) then
                      && dir.files == Pruned(written, maxFilesInFolder, faults.remove)
                      && err == Join([None, PruneError(written, maxFilesInFolder, faults.remove)])
                    else
                      dir.files == written && err.None?)
    {
      var fileName := DayFileName(today);
      err := faults.open(fileName);
      if err.Some? {
        return 0, err;
      }
      // bytes.TrimSpace is applied twice; the second pass changes nothing.
      var l := AppendLine(dir, fileName, TrimSpace(TrimSpace(msg)));
      TrimSpaceIdempotent(msg);
      if lastFileName != fileName {
        lastFileName := fileName;
        var e := VerifyFiles(dir, maxFilesInFolder, faults.remove);
        err := Join([err, e]);
      }
      n := l;
    }
  }

  // --------------------------------------------------------- SilenceHandler

  /** Go's SilenceHandler writer: the message is dropped, its whole length is
      reported and there is never an error. */
  method SilenceWrite(msg: Bytes) returns (n: int, err: Option<Error>)
    ensures n == |msg| && err.None?
  {
    return |msg|, None;
  }
}
