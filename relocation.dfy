/**
 * The relocator, `create_dir_and_copy_images`: names the folder of a date
 * group `DD-MM-YYYY_<city>`, creates it, and renames every file of the
 * group into it under its own file name. The file system's answers are
 * inputs; what the function does to it is an effect log.
 */
module Relocation {
  import opened Wrappers
  import opened Paths
  import opened Dates

  /** `image_dir.join(file_name)`: a file name inside the destination folder. */
  datatype Dest = Dest(dir: string, name: OsStr)

  /** What the session does to the terminal and the file system, in order. */
  datatype Effect =
    | Shown(image: Path)             // `display_with_chafa`
    | CreatedDir(dir: string)        // `fs::create_dir_all`
    | Moved(from: Path, to: Dest)    // `fs::rename`
    | NoFileName(image: Path)        // the "Failed to get file name" message

  /** Which file-system operations fail: folder creations, and renames by source path. */
  datatype FileSystem = FileSystem(failingDirs: set<string>, failingMoves: set<Path>)

  datatype RelocationError = CreateDirFailed(dir: string) | RenameFailed(from: Path, to: Dest)

  /** The effects of one relocation and the error that ended it early, if any. */
  datatype Relocation = Relocation(log: seq<Effect>, error: Option<RelocationError>)

  function Prepend(effects: seq<Effect>, r: Relocation): Relocation
  {
    Relocation(effects + r.log, r.error)
  }

  /** The folder name: `format!("{}_{}", date.format("%d-%m-%Y"), city_name)`. */
  function DirName(date: Date, city: string): string
  {
    FormatDate(date) + "_" + city
  }

  /** What every folder name for `date` starts with: `DD-MM-YYYY_`. */
  function DirPrefix(date: Date): string
  {
    FormatDate(date) + "_"
  }

  lemma DirPrefixStartsDirName()
    ensures forall date, city :: DirPrefix(date) <= DirName(date, city)
  {
    forall date, city ensures DirPrefix(date) <= DirName(date, city) {
      assert DirName(date, city)[..|DirPrefix(date)|] == DirPrefix(date);
    }
  }

  /** Reads a folder name back into its date and city. */
  function ParseDirName(s: string): Option<(Date, string)>
  {
    if |s| >= 11 && s[10] == '_' then
      match ParseDate(s[..10])
      case Some(d) => Some((d, s[11..]))
      case None => None
    else None
  }

  /** For a four-digit year, the folder name determines both the date and the city. */
  lemma {:induction false} DirNameRoundTrip(date: Date, city: string)
    requires FitsTenCharacters(date)
    ensures ParseDirName(DirName(date, city)) == Some((date, city))
  {
    FormatDateRoundTrip(date);
    var s := DirName(date, city);
    assert s[..10] == FormatDate(date);
    assert s[11..] == city;
  }

  /** A folder name is its date's text, an underscore that is the first one in the name, then the city. */
  lemma DirNameSplits(date: Date, city: string)
    requires IsCalendarDate(date)
    ensures var s, f := DirName(date, city), FormatDate(date);
      && |f| < |s| && s[..|f|] == f && s[|f|] == '_'
      && forall i :: 0 <= i < |f| ==> s[i] != '_'
  {
    FormatDateFields(date);
    var s, f := DirName(date, city), FormatDate(date);
    assert s == f + "_" + city;
    assert s[..|f|] == f;
    forall i | 0 <= i < |f| ensures s[i] != '_' {
      assert s[i] == f[i] && IsDateChar(f[i]);
    }
  }

  /** Two groups of different calendar dates never share a folder, whatever cities they are given. */
  lemma {:induction false} DistinctDatesDistinctDirs(a: Date, b: Date, cityA: string, cityB: string)
    requires IsCalendarDate(a) && IsCalendarDate(b)
    requires a != b
    ensures DirName(a, cityA) != DirName(b, cityB)
  {
    DirNameSplits(a, cityA);
    DirNameSplits(b, cityB);
    var fa, fb := FormatDate(a), FormatDate(b);
    if fa == fb {
      FormatDateInjective(a, b);
    }
  }

  /** The files an effect log accounts for: moved, or skipped for want of a file name. */
  function Sources(log: seq<Effect>): seq<Path>
  {
    if log == [] then []
    else
      (match log[0]
       case Moved(from, _) => [from]
       case NoFileName(image) => [image]
       case _ => [])
      + Sources(log[1..])
  }

  /** The folders an effect log creates. */
  function Dirs(log: seq<Effect>): seq<string>
  {
    if log == [] then [] else (if log[0].CreatedDir? then [log[0].dir] else []) + Dirs(log[1..])
  }

  lemma {:induction false} SourcesAppend(a: seq<Effect>, b: seq<Effect>)
    ensures Sources(a + b) == Sources(a) + Sources(b)
  {
    if a != [] {
      assert (a + b)[1..] == a[1..] + b;
      SourcesAppend(a[1..], b);
    } else {
      assert a + b == b;
    }
  }

  lemma {:induction false} DirsAppend(a: seq<Effect>, b: seq<Effect>)
    ensures Dirs(a + b) == Dirs(a) + Dirs(b)
  {
    if a != [] {
      assert (a + b)[1..] == a[1..] + b;
      DirsAppend(a[1..], b);
    } else {
      assert a + b == b;
    }
  }

  /** A move keeps the file's own name and lands in the given folder. */
  predicate KeepsName(e: Effect, dir: string)
  {
    e.Moved? ==> FileName(e.from) == Some(e.to.name) && e.to.dir == dir
  }

  /** The file is skipped for want of a name, or its rename works: either way the loop goes on past it. */
  predicate PassesOver(f: Path, fs: FileSystem)
  {
    FileName(f).None? || f !in fs.failingMoves
  }

  /** Every file the log moves is one whose rename works. */
  predicate RenamesSucceeded(log: seq<Effect>, fs: FileSystem)
  {
    forall e :: e in log && e.Moved? ==> e.from !in fs.failingMoves
  }

  /** A reported failure names a folder creation or a rename that does fail. */
  predicate Genuine(e: RelocationError, fs: FileSystem)
  {
    match e
    case CreateDirFailed(dir) => dir in fs.failingDirs
    case RenameFailed(from, _) => from in fs.failingMoves
  }

  /**
   * The loop of `create_dir_and_copy_images` over the group's files: a file
   * without a file name is reported and skipped, the first rename that
   * fails ends the loop with that error, every other file is renamed into
   * `dir` under its own name.
   */
  function MoveAll(dir: string, files: seq<Path>, fs: FileSystem): Relocation
  {
    if files == [] then Relocation([], None)
    else
      match FileName(files[0])
      case None => Prepend([NoFileName(files[0])], MoveAll(dir, files[1..], fs))
      case Some(name) =>
        if files[0] in fs.failingMoves then Relocation([], Some(RenameFailed(files[0], Dest(dir, name))))
        else Prepend([Moved(files[0], Dest(dir, name))], MoveAll(dir, files[1..], fs))
  }

  /**
   * The effects of handling `files` into `dir` when no rename fails: each
   * file is moved into `dir` under its own name, or reported when it has none.
   */
  function MovesFor(dir: string, files: seq<Path>): (r: seq<Effect>)
    ensures |r| == |files|
  {
    if files == [] then []
    else
      (match FileName(files[0])
       case None => [NoFileName(files[0])]
       case Some(name) => [Moved(files[0], Dest(dir, name))])
      + MovesFor(dir, files[1..])
  }

  /**
   * The move loop's log is exactly the moves of a prefix of the files, in
   * order, and of all of them when the loop succeeds.
   */
  lemma {:induction false} MoveAllLog(dir: string, files: seq<Path>, fs: FileSystem)
    ensures var r := MoveAll(dir, files, fs);
      && |r.log| <= |files|
      && r.log == MovesFor(dir, files[..|r.log|])
      && (r.error.None? ==> |r.log| == |files|)
  {
    if files != [] {
      var r := MoveAll(dir, files, fs);
      var rest := MoveAll(dir, files[1..], fs);
      MoveAllLog(dir, files[1..], fs);
      if PassesOver(files[0], fs) {
        var k := |rest.log|;
        assert r.log == [r.log[0]] + rest.log;
        assert files[..k + 1][1..] == files[1..][..k];
        assert files[..k + 1][0] == files[0];
      } else {
        assert files[..0] == [];
      }
    }
  }

  /**
   * The files the move loop handles all pass: it stops at the first named
   * file whose rename fails, with that rename as its error.
   */
  lemma {:induction false} MoveAllFailsFirst(dir: string, files: seq<Path>, fs: FileSystem)
    ensures var r, j := MoveAll(dir, files, fs), |MoveAll(dir, files, fs).log|;
      && (forall k :: 0 <= k < j && k < |files| ==> PassesOver(files[k], fs))
      && (r.error.Some? ==>
            && j < |files| && !PassesOver(files[j], fs)
            && r.error == Some(RenameFailed(files[j], Dest(dir, FileName(files[j]).value))))
  {
    if files != [] {
      MoveAllFailsFirst(dir, files[1..], fs);
      if PassesOver(files[0], fs) {
        assert forall i :: 1 <= i < |files| ==> files[i] == files[1..][i - 1];
      }
    }
  }

  /** The first file whose rename fails stopped the loop after all files before it were handled. */
  ghost predicate StoppedAt(r: Relocation, dir: string, files: seq<Path>, fs: FileSystem, j: int)
  {
    && 0 <= j < |files|
    && files[j] in fs.failingMoves
    && FileName(files[j]).Some?
    && r.error == Some(RenameFailed(files[j], Dest(dir, FileName(files[j]).value)))
    && Sources(r.log) == files[..j]
    && forall k :: 0 <= k < j ==> PassesOver(files[k], fs)
  }

  /**
   * The move loop creates no folder, shows nothing, every move keeps the
   * file's name inside `dir`, and every file moved is one whose rename works.
   */
  lemma {:induction false} MoveAllKeepsNames(dir: string, files: seq<Path>, fs: FileSystem)
    ensures var r := MoveAll(dir, files, fs);
      && Dirs(r.log) == []
      && RenamesSucceeded(r.log, fs)
      && forall i :: 0 <= i < |r.log| ==> KeepsName(r.log[i], dir) && !r.log[i].Shown?
  {
    if files != [] {
      MoveAllKeepsNames(dir, files[1..], fs);
      var r := MoveAll(dir, files, fs);
      if r.log != [] {
        assert r.log[1..] == MoveAll(dir, files[1..], fs).log;
        assert r.log == [r.log[0]] + r.log[1..];
      }
    }
  }

  /** The move loop succeeds exactly when no named file's rename fails. */
  lemma {:induction false} MoveAllSucceeds(dir: string, files: seq<Path>, fs: FileSystem)
    ensures MoveAll(dir, files, fs).error.None?
            <==> forall i :: 0 <= i < |files| ==> FileName(files[i]).None? || files[i] !in fs.failingMoves
  {
    if files != [] {
      MoveAllSucceeds(dir, files[1..], fs);
      assert forall i :: 1 <= i < |files| ==> files[i] == files[1..][i - 1];
    }
  }

  /** A move loop that succeeds has handled every file once, in order. */
  lemma {:induction false} MoveAllHandlesAll(dir: string, files: seq<Path>, fs: FileSystem)
    ensures MoveAll(dir, files, fs).error.None? ==> Sources(MoveAll(dir, files, fs).log) == files
  {
    if files != [] && !(FileName(files[0]).Some? && files[0] in fs.failingMoves) {
      var rest := MoveAll(dir, files[1..], fs);
      var r := MoveAll(dir, files, fs);
      MoveAllHandlesAll(dir, files[1..], fs);
      assert r.log[1..] == rest.log;
      assert files == [files[0]] + files[1..];
    }
  }

  /**
   * When the move loop fails, it stopped at the first failing rename with
   * every earlier file handled and no later one touched.
   */
  lemma {:induction false} MoveAllStops(dir: string, files: seq<Path>, fs: FileSystem)
    ensures var r := MoveAll(dir, files, fs);
      r.error.Some? ==> exists j :: StoppedAt(r, dir, files, fs, j)
  {
    if files != [] {
      var rest := MoveAll(dir, files[1..], fs);
      var r := MoveAll(dir, files, fs);
      if FileName(files[0]).Some? && files[0] in fs.failingMoves {
        assert files[..0] == [];
        assert StoppedAt(r, dir, files, fs, 0);
      } else if rest.error.Some? {
        MoveAllStops(dir, files[1..], fs);
        var first := if FileName(files[0]).Some? then Moved(files[0], Dest(dir, FileName(files[0]).value))
                     else NoFileName(files[0]);
        assert r == Prepend([first], rest);
        var j :| StoppedAt(rest, dir, files[1..], fs, j);
        StoppedAfterOne(first, rest, dir, files, fs, j);
      }
    }
  }

  /** Handling one file before a loop that stopped at `j` stops it at `j + 1`. */
  lemma StoppedAfterOne(first: Effect, rest: Relocation, dir: string, files: seq<Path>, fs: FileSystem, j: int)
    requires files != [] && Sources([first]) == [files[0]] && PassesOver(files[0], fs)
    requires StoppedAt(rest, dir, files[1..], fs, j)
    ensures StoppedAt(Prepend([first], rest), dir, files, fs, j + 1)
  {
    SourcesAppend([first], rest.log);
    assert files[j + 1] == files[1..][j];
    assert files[..j + 1] == [files[0]] + files[1..][..j];
    assert forall k :: 1 <= k < j + 1 ==> files[k] == files[1..][k - 1];
  }

  /** `create_dir_and_copy_images` as a whole: create the folder (fatal on failure), then move the files. */
  function CopyImages(date: Date, city: string, files: seq<Path>, fs: FileSystem): Relocation
  {
    var dir := DirName(date, city);
    if dir in fs.failingDirs then Relocation([], Some(CreateDirFailed(dir)))
    else Prepend([CreatedDir(dir)], MoveAll(dir, files, fs))
  }

  /**
   * What one relocation does: when the folder cannot be created nothing
   * else happens; otherwise it creates exactly that folder first, never
   * shows an image, moves every file into it under its own name, and
   * succeeds exactly when no named file's rename fails, in which case every
   * file of the group is accounted for, in order.
   */
  lemma CopyImagesMeaning(date: Date, city: string, images: seq<Path>, fs: FileSystem)
    ensures var r, dir := CopyImages(date, city, images, fs), DirName(date, city);
      && (dir in fs.failingDirs ==> r == Relocation([], Some(CreateDirFailed(dir))))
      && (dir !in fs.failingDirs ==>
        && |r.log| > 0 && r.log[0] == CreatedDir(dir)
        && Dirs(r.log) == [dir]
        && (r.error.None? <==>
              forall i :: 0 <= i < |images| ==> FileName(images[i]).None? || images[i] !in fs.failingMoves)
        && (r.error.None? ==> Sources(r.log) == images)
        && forall i :: 0 <= i < |r.log| ==> KeepsName(r.log[i], dir) && !r.log[i].Shown?)
      && RenamesSucceeded(r.log, fs)
      && (r.error.Some? ==> Genuine(r.error.value, fs))
  {
    var dir := DirName(date, city);
    if dir !in fs.failingDirs {
      var m := MoveAll(dir, images, fs);
      var r := CopyImages(date, city, images, fs);
      MoveAllKeepsNames(dir, images, fs);
      MoveAllSucceeds(dir, images, fs);
      MoveAllHandlesAll(dir, images, fs);
      MoveAllStops(dir, images, fs);
      assert r.log == [CreatedDir(dir)] + m.log;
      DirsAppend([CreatedDir(dir)], m.log);
      SourcesAppend([CreatedDir(dir)], m.log);
      forall i | 0 <= i < |r.log| ensures KeepsName(r.log[i], dir) && !r.log[i].Shown? {
        if i > 0 {
          assert r.log[i] == m.log[i - 1];
        }
      }
    }
  }

  /**
   * A relocation's log, exactly: nothing when the folder cannot be created;
   * otherwise the folder's creation followed by the moves of the files up
   * to the first named file whose rename fails, which is then the error;
   * all of the files when the relocation succeeds.
   */
  lemma CopyImagesLog(date: Date, city: string, files: seq<Path>, fs: FileSystem)
    ensures var r, dir := CopyImages(date, city, files, fs), DirName(date, city);
      && (dir in fs.failingDirs ==> r.log == [])
      && (dir !in fs.failingDirs ==>
            && 1 <= |r.log| <= |files| + 1 && r.log == [CreatedDir(dir)] + MovesFor(dir, files[..|r.log| - 1])
            && (forall k :: 0 <= k < |r.log| - 1 ==> PassesOver(files[k], fs))
            && (r.error.Some? ==>
                  && |r.log| - 1 < |files| && !PassesOver(files[|r.log| - 1], fs)
                  && r.error == Some(RenameFailed(files[|r.log| - 1], Dest(dir, FileName(files[|r.log| - 1]).value)))))
      && (r.error.None? ==> r.log == [CreatedDir(dir)] + MovesFor(dir, files))
  {
    var dir := DirName(date, city);
    if dir !in fs.failingDirs {
      MoveAllLog(dir, files, fs);
      MoveAllFailsFirst(dir, files, fs);
      assert files[..|files|] == files;
    }
  }

  /** Where no folder creation and no rename fails, a relocation succeeds and handles every file. */
  lemma CopyImagesNothingFails(date: Date, city: string, images: seq<Path>, fs: FileSystem)
    requires fs.failingDirs == {} && fs.failingMoves == {}
    ensures CopyImages(date, city, images, fs).error.None?
    ensures Sources(CopyImages(date, city, images, fs).log) == images
  {
    var dir := DirName(date, city);
    MoveAllSucceeds(dir, images, fs);
    MoveAllHandlesAll(dir, images, fs);
    SourcesAppend([CreatedDir(dir)], MoveAll(dir, images, fs).log);
  }

  /** Whatever happens, a relocation handles a prefix of the group's files, in order. */
  lemma CopyImagesHandlesPrefix(date: Date, city: string, images: seq<Path>, fs: FileSystem)
    ensures Sources(CopyImages(date, city, images, fs).log) <= images
  {
    var dir := DirName(date, city);
    if dir !in fs.failingDirs {
      var m := MoveAll(dir, images, fs);
      MoveAllSucceeds(dir, images, fs);
      MoveAllHandlesAll(dir, images, fs);
      MoveAllStops(dir, images, fs);
      assert CopyImages(date, city, images, fs).log == [CreatedDir(dir)] + m.log;
      SourcesAppend([CreatedDir(dir)], m.log);
    }
  }

  /**
   * `create_dir_and_copy_images`: creates `DD-MM-YYYY_<city>`, then renames
   * each file of the group into it, keeping its file name. Creating the
   * folder and each rename are fatal on failure; files with no file name are
   * skipped with a message.
   */
  method CreateDirAndCopyImages(date: Date, city: string, images: seq<Path>, fs: FileSystem)
    returns (r: Relocation)
    ensures r == CopyImages(date, city, images, fs)
  {
    var imageDir := DirName(date, city);
    if imageDir in fs.failingDirs {
      return Relocation([], Some(CreateDirFailed(imageDir)));
    }
    ghost var whole := Prepend([CreatedDir(imageDir)], MoveAll(imageDir, images, fs));
    assert whole == CopyImages(date, city, images, fs);
    var log := [CreatedDir(imageDir)];
    var i := 0;
    while i < |images|
      invariant 0 <= i <= |images|
      invariant whole == Prepend(log, MoveAll(imageDir, images[i..], fs))
    {
      var image := images[i];
      assert images[i..][1..] == images[i + 1..];
      match FileName(image) {
        case Some(fileName) =>
          var destPath := Dest(imageDir, fileName);
          if image in fs.failingMoves {
            assert log + [] == log;
            return Relocation(log, Some(RenameFailed(image, destPath)));
          }
          var rest := MoveAll(imageDir, images[i + 1..], fs);
          assert MoveAll(imageDir, images[i..], fs) == Prepend([Moved(image, destPath)], rest);
          assert (log + [Moved(image, destPath)]) + rest.log == log + ([Moved(image, destPath)] + rest.log);
          log := log + [Moved(image, destPath)];
        case None =>
          var rest := MoveAll(imageDir, images[i + 1..], fs);
          assert MoveAll(imageDir, images[i..], fs) == Prepend([NoFileName(image)], rest);
          assert (log + [NoFileName(image)]) + rest.log == log + ([NoFileName(image)] + rest.log);
          log := log + [NoFileName(image)];
      }
      i := i + 1;
    }
    assert images[i..] == [];
    assert log + [] == log;
    r := Relocation(log, None);
  }
}
