/** Renumbering of archived log files on a map from names to contents (src/include/Poco/ArchiveStrategy.h). */
module Archiving {
  import opened Basics
  import N = NumericText

  function Decimal(n: nat): string {
    N.Digits(n, 10, NUL, 0)
  }

  function Suffixed(basePath: string, n: nat): string {
    basePath + "." + Decimal(n)
  }

  /** The suffix is the decimal number, without leading zeros. */
  lemma SuffixIsDecimal(basePath: string, n: nat)
    ensures var name := Suffixed(basePath, n);
            && |name| > |basePath| + 1 && name[..|basePath| + 1] == basePath + "."
            && var digits := name[|basePath| + 1..];
               && N.Number(digits, 10) == n
               && (forall i :: 0 <= i < |digits| ==> digits[i] in "0123456789")
               && (digits[0] == '0' ==> digits == "0")
  {
    hide N.Digits, N.Number;
    N.DigitsAre(n, 10, NUL);
    assert Suffixed(basePath, n)[|basePath| + 1..] == Decimal(n);
    assert "0123456789ABCDEF"[..10] == "0123456789";
  }

  /** The names that take part, in the order in which a file moves through them: the base path, then the
      suffixes from zero on. */
  function Name(basePath: string, k: nat): string {
    if k == 0 then basePath else Suffixed(basePath, k - 1)
  }

  /** Different numbers have different texts, since each text can be parsed back. */
  lemma DecimalInjective(n: nat, m: nat)
    requires Decimal(n) == Decimal(m)
    ensures n == m
  {
    hide N.Digits, N.Scan, N.Quotient;
    var t := N.Range(0, n + m + 1);
    N.ScanDigits(n, t, 10, NUL, NUL, 0, "");
    N.ScanDigits(m, t, 10, NUL, NUL, 0, "");
    NothingLeft(t, n, n != 0);
    NothingLeft(t, m, m != 0);
  }

  lemma NothingLeft(t: N.Range, n: nat, significant: bool)
    requires t.max > 0
    ensures N.Scan("", t, 10, NUL, n, significant) == N.Value(n)
  {
  }

  lemma SuffixedInjective(basePath: string, n: nat, m: nat)
    requires Suffixed(basePath, n) == Suffixed(basePath, m)
    ensures n == m
  {
    hide Decimal;
    assert Suffixed(basePath, n)[|basePath| + 1..] == Decimal(n);
    assert Suffixed(basePath, m)[|basePath| + 1..] == Decimal(m);
    DecimalInjective(n, m);
  }

  lemma NameInjective(basePath: string, j: nat, k: nat)
    ensures Name(basePath, j) == Name(basePath, k) ==> j == k
    ensures |Name(basePath, j)| >= |basePath|
  {
    hide Decimal;
    if Name(basePath, j) == Name(basePath, k) && j > 0 && k > 0 {
      SuffixedInjective(basePath, j - 1, k - 1);
    }
  }

  /** The suffixed names below n. */
  function Suffixes(basePath: string, n: nat): (r: set<string>)
    ensures forall s :: s in r <==> exists i :: 0 <= i < n && s == Suffixed(basePath, i)
  {
    set i | 0 <= i < n :: Suffixed(basePath, i)
  }

  lemma {:induction false} SuffixCount(basePath: string, n: nat)
    ensures |Suffixes(basePath, n)| == n
  {
    hide Suffixed;
    if n > 0 {
      SuffixCount(basePath, n - 1);
      var last := Suffixed(basePath, n - 1);
      assert Suffixes(basePath, n) == Suffixes(basePath, n - 1) + {last};
      if last in Suffixes(basePath, n - 1) {
        var i :| 0 <= i < n - 1 && last == Suffixed(basePath, i);
        SuffixedInjective(basePath, i, n - 1);
      }
    }
  }

  ghost predicate TakenBelow<C>(files: map<string, C>, basePath: string, n: nat) {
    forall i :: 0 <= i < n ==> Suffixed(basePath, i) in files
  }

  /** There are never more suffixes taken than there are files. */
  lemma {:induction false} TakenAreFew<C>(files: map<string, C>, basePath: string, n: nat)
    requires TakenBelow(files, basePath, n)
    ensures n <= |files|
  {
    hide Suffixed;
    SuffixCount(basePath, n);
    Fewer(Suffixes(basePath, n), files.Keys);
  }

  lemma {:induction false} Fewer(a: set<string>, b: set<string>)
    requires a <= b
    ensures |a| <= |b|
  {
    assert b == a + (b - a);
  }

  /** The first suffix from n on that is free. */
  ghost function FreeFrom<C>(files: map<string, C>, basePath: string, n: nat): (r: nat)
    requires TakenBelow(files, basePath, n)
    ensures TakenBelow(files, basePath, r) && Suffixed(basePath, r) !in files
    decreases |files| - n
  {
    TakenAreFew(files, basePath, n);
    if Suffixed(basePath, n) !in files then n
    else
      TakenAreFew(files, basePath, n + 1);
      FreeFrom(files, basePath, n + 1)
  }

  /** Number of the first free suffix. */
  ghost function FirstFree<C>(files: map<string, C>, basePath: string): (r: nat)
    ensures TakenBelow(files, basePath, r) && Suffixed(basePath, r) !in files
  {
    FreeFrom(files, basePath, 0)
  }

  lemma FirstFreeIs<C>(files: map<string, C>, basePath: string, n: nat)
    requires TakenBelow(files, basePath, n) && Suffixed(basePath, n) !in files
    ensures FirstFree(files, basePath) == n
  {
  }

  /** All names from the base path up to number n are taken, the next is free. */
  ghost predicate Chain<C>(files: map<string, C>, basePath: string, n: nat) {
    && (forall k :: 0 <= k <= n ==> Name(basePath, k) in files)
    && Name(basePath, n + 1) !in files
  }

  lemma ChainOfFree<C>(files: map<string, C>, basePath: string, n: nat)
    requires basePath in files && TakenBelow(files, basePath, n) && Suffixed(basePath, n) !in files
    ensures Chain(files, basePath, n)
  {
    hide Suffixed;
  }

  ghost predicate Outside(basePath: string, m: nat, n: nat, f: string) {
    forall k :: m <= k <= n ==> f != Name(basePath, k)
  }

  /** The files at the names from m to n have gone one name up, all other files are as before. */
  ghost predicate Shifted<C>(files: map<string, C>, now: map<string, C>, basePath: string, m: nat, n: nat)
    requires Chain(files, basePath, n)
  {
    && Name(basePath, m) !in now
    && (forall k :: m < k <= n + 1 ==>
        Name(basePath, k) in now && now[Name(basePath, k)] == files[Name(basePath, k - 1)])
    && (forall f :: f in files && Outside(basePath, m, n + 1, f) ==> f in now && now[f] == files[f])
    && (forall f :: f in now && Outside(basePath, m, n + 1, f) ==> f in files)
  }

  function Moved<C>(files: map<string, C>, from: string, to: string): map<string, C>
    requires from in files
  {
    (files - {from})[to := files[from]]
  }

  lemma NothingShifted<C>(files: map<string, C>, basePath: string, n: nat)
    requires Chain(files, basePath, n)
    ensures Shifted(files, files, basePath, n + 1, n)
  {
    hide Name;
  }

  /** Moving the next file up goes on to a name that is free, and shifts one more. */
  lemma ShiftOneMore<C>(files: map<string, C>, now: map<string, C>, basePath: string, m: nat, n: nat)
    requires Chain(files, basePath, n) && m <= n && Shifted(files, now, basePath, m + 1, n)
    ensures Name(basePath, m) in now && now[Name(basePath, m)] == files[Name(basePath, m)]
    ensures Name(basePath, m + 1) !in now
    ensures Shifted(files, Moved(now, Name(basePath, m), Name(basePath, m + 1)), basePath, m, n)
  {
    hide Name;
    var old_, new_ := Name(basePath, m), Name(basePath, m + 1);
    forall k | 0 <= k <= n + 1 && k != m ensures Name(basePath, k) != old_ {
      NameInjective(basePath, k, m);
    }
    assert Outside(basePath, m + 1, n + 1, old_);
    var moved := Moved(now, old_, new_);
    forall k | m < k <= n + 1
      ensures Name(basePath, k) in moved && moved[Name(basePath, k)] == files[Name(basePath, k - 1)]
    {
      if k > m + 1 {
        NameInjective(basePath, k, m + 1);
      }
    }
    forall f | Outside(basePath, m, n + 1, f)
      ensures f in files <==> f in moved
      ensures f in files ==> moved[f] == files[f]
    {
      assert Outside(basePath, m + 1, n + 1, f);
      assert f != old_ && f != new_;
    }
  }

  /** The names whose file has the given content. */
  function Holders<C(==)>(files: map<string, C>, content: C): (r: set<string>)
    ensures forall f :: f in r <==> f in files && files[f] == content
  {
    set f | f in files && files[f] == content
  }

  /** A move to a free name keeps the number of files of every content: nothing is lost or doubled. */
  lemma {:induction false} MoveConserves<C>(files: map<string, C>, from: string, to: string, content: C)
    requires from in files && to !in files
    ensures |Holders(Moved(files, from, to), content)| == |Holders(files, content)|
  {
    var before, after := Holders(files, content), Holders(Moved(files, from, to), content);
    if files[from] == content {
      assert before == (before - {from}) + {from};
      assert after == (before - {from}) + {to};
    } else {
      assert before == after;
    }
  }

  /** What archiving by number does to the files, for the log file's own path: the base path is free, each
      name of the chain holds what the name before it held, nothing else is touched. */
  ghost predicate Renumbered<C>(files: map<string, C>, now: map<string, C>, basePath: string)
    requires basePath in files
  {
    var n := FirstFree(files, basePath);
    ChainOfFree(files, basePath, n);
    Shifted(files, now, basePath, 0, n)
  }

  /** What archiving under a time stamp does. */
  ghost predicate Archived<C>(was: map<string, C>, now: map<string, C>, path: string, stamp: string, empty: C)
    requires path in was
  {
    var archPath := path + "." + stamp;
    if archPath in was then Renumbered(was, now, archPath) && path in now && now[path] == was[path]
    else now == was[archPath := was[path]][path := empty]
  }

  /** The log file is archived exactly when no archive has its time stamp yet; otherwise the archive with
      that stamp is renumbered and the log file goes on being written to. */
  lemma {:induction false} LogIsArchivedIff<C>(was: map<string, C>, now: map<string, C>, path: string, stamp: string,
          empty: C)
    requires path in was && was[path] != empty && Archived(was, now, path, stamp, empty)
    ensures now[path] == empty <==> path + "." + stamp !in was
    ensures now[path] == empty <==> path + "." + stamp in now && now[path + "." + stamp] == was[path]
  {
  }

  /** A second rotation within the same time stamp: the first archive moves to suffix zero, the log file
      stays where it is, and the archive's name is free. */
  lemma {:induction false} SameStampLeavesLog<C>(now: map<string, C>, log: C, archive: C, empty: C)
    requires Archived(map["log" := log, "log.T" := archive], now, "log", "T", empty)
    ensures now["log"] == log && "log.T" !in now
    ensures "log.T.0" in now && now["log.T.0"] == archive
  {
    var was := map["log" := log, "log.T" := archive];
    assert "log" + "." + "T" == "log.T";
    assert Decimal(0) == "0" && Suffixed("log.T", 0) == "log.T.0";
    RenumberedSuffixes(was, now, "log.T", 0);
  }

  /** Read in terms of suffixes: the new .0 is the old base file, each new .i the old .i-1. */
  lemma {:induction false} RenumberedSuffixes<C>(files: map<string, C>, now: map<string, C>, basePath: string, i: nat)
    requires basePath in files && Renumbered(files, now, basePath) && i <= FirstFree(files, basePath)
    ensures basePath !in now && Suffixed(basePath, i) in now
    ensures i == 0 ==> now[Suffixed(basePath, 0)] == files[basePath]
    ensures i > 0 ==>
      Suffixed(basePath, i - 1) in files && now[Suffixed(basePath, i)] == files[Suffixed(basePath, i - 1)]
  {
    hide Suffixed;
    assert Name(basePath, 0) == basePath;
    assert Name(basePath, i + 1) == Suffixed(basePath, i);
    if i > 0 {
      assert Name(basePath, i) == Suffixed(basePath, i - 1);
    }
  }
}

/** The strategy at work on a directory. */
module ArchiveStrategies {
  import opened Archiving

  class Directory<C(==)> {
    var files: map<string, C>

    constructor (files: map<string, C>)
      ensures this.files == files
    {
      this.files := files;
    }

    predicate Exists(name: string)
      reads this
    {
      name in files
    }

    /** Renames a file; what was at the new name is gone. */
    method MoveFile(oldName: string, newName: string)
      requires Exists(oldName)
      modifies this
      ensures files == Moved(old(files), oldName, newName)
    {
      files := (files - {oldName})[newName := files[oldName]];
    }
  }

  class ArchiveByTimestampStrategy<C(==)> {
    const directory: Directory<C>

    constructor (directory: Directory<C>)
      ensures this.directory == directory
    {
      this.directory := directory;
    }

    method ArchiveByNumber(basePath: string)
      requires directory.Exists(basePath)
      modifies directory
      ensures Renumbered(old(directory.files), directory.files, basePath)
      ensures forall c :: |Holders(directory.files, c)| == |Holders(old(directory.files), c)|
    {
      hide Suffixed, Shifted, Moved, Chain;
      ghost var before := directory.files;
      var n := 0;
      var path := Suffixed(basePath, 0);
      while directory.Exists(path)
        invariant directory.files == before && path == Suffixed(basePath, n)
        invariant TakenBelow(before, basePath, n)
        decreases |before| - n
      {
        TakenAreFew(before, basePath, n + 1);
        n := n + 1;
        path := Suffixed(basePath, n);
      }
      FirstFreeIs(before, basePath, n);
      ChainOfFree(before, basePath, n);
      ghost var first := n;
      NothingShifted(before, basePath, first);
      var m: int := n;
      while m >= 0
        invariant -1 <= m <= first
        invariant Shifted(before, directory.files, basePath, m + 1, first)
        invariant forall c :: |Holders(directory.files, c)| == |Holders(before, c)|
      {
        var oldPath := basePath;
        if m > 0 {
          oldPath := Suffixed(basePath, m - 1);
        }
        var newPath := Suffixed(basePath, m);
        ShiftOneMore(before, directory.files, basePath, m, first);
        assert oldPath == Name(basePath, m) && newPath == Name(basePath, m + 1);
        ghost var now := directory.files;
        directory.MoveFile(oldPath, newPath);
        forall c ensures |Holders(directory.files, c)| == |Holders(now, c)| {
          MoveConserves(now, oldPath, newPath, c);
        }
        m := m - 1;
      }
    }

    /** Opens a log file: an existing one is continued, otherwise an empty one is created. */
    method OpenLog(path: string, empty: C)
      modifies directory
      ensures directory.files ==
          if path in old(directory.files) then old(directory.files) else old(directory.files)[path := empty]
    {
      if !directory.Exists(path) {
        directory.files := directory.files[path := empty];
      }
    }

    /** Archives the log file under the time stamp and opens a new one at its path. */
    method Archive(path: string, stamp: string, empty: C)
      requires directory.Exists(path)
      modifies directory
      ensures Archived(old(directory.files), directory.files, path, stamp, empty)
      ensures path + "." + stamp !in old(directory.files) ==>
                directory.files == old(directory.files)[path + "." + stamp := old(directory.files)[path]][path := empty]
    {
      var archPath := path + "." + stamp;
      ghost var was := directory.files;
      if directory.Exists(archPath) {
        ArchiveByNumber(archPath);
        PathIsOutside(was, archPath, path);
        OpenLog(path, empty);
      } else {
        directory.MoveFile(path, archPath);
        OpenLog(path, empty);
        assert directory.files == was[archPath := was[path]][path := empty];
      }
    }
  }

  lemma PathIsOutside<C>(files: map<string, C>, archPath: string, path: string)
    requires archPath in files && |path| < |archPath|
    ensures Outside(archPath, 0, FirstFree(files, archPath) + 1, path)
  {
  }
}
