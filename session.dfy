/**
 * The interactive session, `main`: confirm, scan and group, then walk the
 * date groups in ascending order. For each group the current image is
 * shown and a command read: "n" and "p" move the image index, "q" aborts
 * the whole session, and a city name relocates every file of the group and
 * moves on to the next group.
 */
module Session {
  import opened Wrappers
  import opened Paths
  import opened Dates
  import opened Scanner
  import opened Grouping
  import opened Prompts
  import opened Navigation
  import opened Relocation
  import opened Text

  /** Why a session stops before it has relocated every group. */
  datatype Abort =
    | Declined                                   // "n" at the confirmation prompt
    | Quit                                       // "q" at a navigation prompt
    | InputFailed                                // `read_line` returned an error
    | ScanFailed(scanError: ScanError)           // `group_images_in_dir` failed
    | RelocationFailed(error: RelocationError)   // `create_dir_all` or `rename` failed
    | IndexOutOfBounds(group: nat, index: nat)   // `images[image_idx]` panicked

  datatype Outcome = Completed | Aborted(reason: Abort) | AwaitingInput

  /** How a session ends, and everything it showed and did to the file system on the way. */
  datatype Run = Run(outcome: Outcome, log: seq<Effect>)

  function After(effects: seq<Effect>, r: Run): Run
  {
    Run(r.outcome, effects + r.log)
  }

  /**
   * The navigation loop of `main` from group `gi`, image index `idx` and
   * input position `pos`. With `resetIndex` false it is the loop as written,
   * where the image index carries over from one group to the next; with
   * `resetIndex` true each group starts at its first image.
   */
  function Navigate(gs: seq<Group>, gi: nat, idx: nat, lines: seq<InputLine>, pos: nat, fs: FileSystem,
                    resetIndex: bool): Run
    requires Valid(gs) && gi <= |gs| && pos <= |lines|
    decreases |lines| - pos, 0
  {
    if gi == |gs| then Run(Completed, [])
    else
      var images := gs[gi].files;
      if idx >= |images| then Run(Aborted(IndexOutOfBounds(gi, idx)), [])
      else
        var shown := [Shown(images[idx])];
        match FirstDecisive(lines, pos, ClassifyCommand)
        case EndOfInput => Run(AwaitingInput, shown)
        case ReadFailed => Run(Aborted(InputFailed), shown)
        case Answered(option, next) =>
          match option
          case Exit => Run(Aborted(Quit), shown)
          case NextImage =>
            After(shown, Navigate(gs, gi, Next(idx, |images|), lines, next, fs, resetIndex))
          case PreviousImage =>
            After(shown, Navigate(gs, gi, Previous(idx, |images|), lines, next, fs, resetIndex))
          case CityName(city) =>
            After(shown, Relocate(gs, gi, idx, city, lines, next, fs, resetIndex))
  }

  /**
   * A city name was entered for group `gi`: relocate the group, stop on the
   * first failure, otherwise go on with the next group from input position
   * `next`.
   */
  function Relocate(gs: seq<Group>, gi: nat, idx: nat, city: string, lines: seq<InputLine>, next: nat,
                    fs: FileSystem, resetIndex: bool): Run
    requires Valid(gs) && gi < |gs| && next <= |lines|
    decreases |lines| - next, 1
  {
    var relocation := CopyImages(gs[gi].date, city, gs[gi].files, fs);
    if relocation.error.Some? then
      Run(Aborted(RelocationFailed(relocation.error.value)), relocation.log)
    else
      After(relocation.log, Navigate(gs, gi + 1, if resetIndex then 0 else idx, lines, next, fs, resetIndex))
  }

  lemma AfterNothing(r: Run)
    ensures After([], r) == r
  {
    assert [] + r.log == r.log;
  }

  lemma AfterAfter(a: seq<Effect>, b: seq<Effect>, r: Run)
    ensures After(a, After(b, r)) == After(a + b, r)
  {
    assert a + (b + r.log) == (a + b) + r.log;
  }

  /** Showing an image neither moves a file nor creates a folder. */
  lemma ShownIsHarmless(image: Path, log: seq<Effect>)
    ensures Sources([Shown(image)] + log) == Sources(log)
    ensures Dirs([Shown(image)] + log) == Dirs(log)
    ensures FileEffects([Shown(image)] + log) == FileEffects(log)
  {
    assert ([Shown(image)] + log)[1..] == log;
  }

  lemma {:induction false} FlattenSplit(gs: seq<Group>, i: nat, j: nat)
    requires i < j <= |gs|
    ensures Flatten(gs[i..j]) == gs[i].files + Flatten(gs[i + 1..j])
  {
    assert gs[i..j][1..] == gs[i + 1..j];
  }

  /** Every move in `log` keeps the file's own name. */
  predicate NamesKept(log: seq<Effect>)
  {
    log == [] || ((log[0].Moved? ==> FileName(log[0].from) == Some(log[0].to.name)) && NamesKept(log[1..]))
  }

  lemma {:induction false} NamesKeptAppend(a: seq<Effect>, b: seq<Effect>)
    requires NamesKept(a) && NamesKept(b)
    ensures NamesKept(a + b)
  {
    if a == [] {
      assert a + b == b;
    } else {
      assert (a + b)[1..] == a[1..] + b;
      NamesKeptAppend(a[1..], b);
    }
  }

  lemma {:induction false} NamesKeptEverywhere(log: seq<Effect>)
    requires forall i :: 0 <= i < |log| ==> log[i].Moved? ==> FileName(log[i].from) == Some(log[i].to.name)
    ensures NamesKept(log)
  {
    if log != [] {
      assert forall i :: 0 <= i < |log| - 1 ==> log[1..][i] == log[i + 1];
      NamesKeptEverywhere(log[1..]);
    }
  }

  /**
   * The `k`-th folder created starts with `prefix` of the date of the `k`-th
   * group; with `DirPrefix`, it is named `DD-MM-YYYY_` and then the city.
   */
  predicate DatedDirs(dirs: seq<string>, gs: seq<Group>, prefix: Date -> string)
  {
    dirs == [] || (|gs| > 0 && prefix(gs[0].date) <= dirs[0] && DatedDirs(dirs[1..], gs[1..], prefix))
  }

  /** What a log does to the file system: everything but the images shown. */
  function FileEffects(log: seq<Effect>): seq<Effect>
  {
    if log == [] then [] else (if log[0].Shown? then [] else [log[0]]) + FileEffects(log[1..])
  }

  lemma {:induction false} FileEffectsAppend(a: seq<Effect>, b: seq<Effect>)
    ensures FileEffects(a + b) == FileEffects(a) + FileEffects(b)
  {
    if a == [] {
      assert a + b == b;
    } else {
      assert (a + b)[1..] == a[1..] + b;
      FileEffectsAppend(a[1..], b);
    }
  }

  /** Moving files shows no image. */
  lemma {:induction false} FileEffectsOfMoves(dir: string, files: seq<Path>)
    ensures FileEffects(MovesFor(dir, files)) == MovesFor(dir, files)
  {
    if files != [] {
      var m := MovesFor(dir, files);
      assert m[1..] == MovesFor(dir, files[1..]);
      FileEffectsOfMoves(dir, files[1..]);
    }
  }

  /**
   * The file-system effects `t` relocate the groups `gs` one after the
   * other: for each group a folder starting with `prefix` of its date is
   * created, then the group's files are moved into that very folder in
   * order, each under its own name, or reported when it has none. Only the
   * last group relocated may stop part-way.
   */
  predicate Relocates(t: seq<Effect>, gs: seq<Group>, prefix: Date -> string)
    decreases |t|
  {
    t == [] ||
    (&& |gs| > 0 && t[0].CreatedDir? && prefix(gs[0].date) <= t[0].dir
     && var n := |gs[0].files|;
        if |t| - 1 <= n then t[1..] == MovesFor(t[0].dir, gs[0].files[..|t| - 1])
        else t[1..n + 1] == MovesFor(t[0].dir, gs[0].files) && Relocates(t[n + 1..], gs[1..], prefix))
  }

  /** A whole group relocated in front of a relocation of the following groups. */
  lemma RelocatesCons(dir: string, g: Group, gs: seq<Group>, rest: seq<Effect>, prefix: Date -> string)
    requires prefix(g.date) <= dir && Relocates(rest, gs, prefix)
    ensures Relocates([CreatedDir(dir)] + MovesFor(dir, g.files) + rest, [g] + gs, prefix)
  {
    var t := [CreatedDir(dir)] + MovesFor(dir, g.files) + rest;
    var n := |g.files|;
    assert ([g] + gs)[0] == g && ([g] + gs)[1..] == gs;
    if rest == [] {
      assert t[1..] == MovesFor(dir, g.files);
      assert g.files[..n] == g.files;
    } else {
      assert t[1..n + 1] == MovesFor(dir, g.files);
      assert t[n + 1..] == rest;
    }
  }

  /** A group relocated part-way, with nothing after it. */
  lemma RelocatesPartial(dir: string, g: Group, gs: seq<Group>, j: nat, prefix: Date -> string)
    requires prefix(g.date) <= dir && j <= |g.files|
    ensures Relocates([CreatedDir(dir)] + MovesFor(dir, g.files[..j]), [g] + gs, prefix)
  {
    var t := [CreatedDir(dir)] + MovesFor(dir, g.files[..j]);
    assert ([g] + gs)[0] == g;
    assert t[1..] == MovesFor(dir, g.files[..j]);
  }

  /**
   * One relocation of group `gi` relocates it, possibly part-way, and, when
   * it succeeds, does exactly: create the group's folder, then move each of
   * its files into it.
   */
  lemma RelocationRelocates(gs: seq<Group>, gi: nat, city: string, fs: FileSystem, prefix: Date -> string)
    requires gi < |gs| && prefix(gs[gi].date) <= DirName(gs[gi].date, city)
    ensures var r, dir := CopyImages(gs[gi].date, city, gs[gi].files, fs), DirName(gs[gi].date, city);
      && Relocates(FileEffects(r.log), gs[gi..], prefix)
      && (r.error.None? ==> FileEffects(r.log) == [CreatedDir(dir)] + MovesFor(dir, gs[gi].files))
  {
    var g := gs[gi];
    var r, dir := CopyImages(g.date, city, g.files, fs), DirName(g.date, city);
    CopyImagesLog(g.date, city, g.files, fs);
    assert gs[gi..] == [g] + gs[gi + 1..];
    if dir !in fs.failingDirs {
      var j := |r.log| - 1;
      var m := MovesFor(dir, g.files[..j]);
      assert FileEffects(r.log) == [CreatedDir(dir)] + m by {
        assert r.log[1..] == m;
        FileEffectsOfMoves(dir, g.files[..j]);
      }
      RelocatesPartial(dir, g, gs[gi + 1..], j, prefix);
      if r.error.None? {
        assert g.files[..j] == g.files;
      }
    }
  }

  /**
   * What a navigation run from group `gi` accounts for: files are handled
   * in group order, each at most once, with their names kept; unless a
   * file-system call failed, the run has relocated whole groups only, one
   * folder per group named after its date; and a completed run has
   * relocated every group.
   */
  ghost predicate Accounted(gs: seq<Group>, gi: nat, r: Run, prefix: Date -> string)
    requires gi <= |gs|
  {
    var done := |Dirs(r.log)|;
    && Sources(r.log) <= Flatten(gs[gi..])
    && NamesKept(r.log)
    && (!(r.outcome.Aborted? && r.outcome.reason.RelocationFailed?) ==>
          && gi + done <= |gs|
          && Sources(r.log) == Flatten(gs[gi..gi + done])
          && DatedDirs(Dirs(r.log), gs[gi..], prefix))
    && (r.outcome == Completed ==> gi + done == |gs|)
  }

  /** A run that ends before touching the file system, having shown at most one image. */
  lemma ShownOnlyAccounted(gs: seq<Group>, gi: nat, shown: seq<Effect>, outcome: Outcome, prefix: Date -> string)
    requires gi <= |gs| && outcome != Completed
    requires shown == [] || (|shown| == 1 && shown[0].Shown?)
    ensures Accounted(gs, gi, Run(outcome, shown), prefix)
  {
    if shown != [] {
      assert shown[1..] == [];
    }
    assert gs[gi..gi] == [];
  }

  lemma ShownAccounted(gs: seq<Group>, gi: nat, image: Path, r: Run, prefix: Date -> string)
    requires gi <= |gs| && Accounted(gs, gi, r, prefix)
    ensures Accounted(gs, gi, After([Shown(image)], r), prefix)
  {
    ShownIsHarmless(image, r.log);
    assert ([Shown(image)] + r.log)[1..] == r.log;
  }

  lemma PrefixOfConcat(a: seq<Path>, b: seq<Path>, c: seq<Path>)
    requires a <= b
    ensures a <= b + c
  {
    assert (b + c)[..|a|] == b[..|a|];
  }

  /** A relocation that failed part-way: a prefix of the group's files, in order, names kept. */
  lemma FailedRelocationAccounted(gs: seq<Group>, gi: nat, log: seq<Effect>, error: RelocationError,
                                  prefix: Date -> string)
    requires gi < |gs| && Sources(log) <= gs[gi].files && NamesKept(log)
    ensures Accounted(gs, gi, Run(Aborted(RelocationFailed(error)), log), prefix)
  {
    FlattenSplit(gs, gi, |gs|);
    assert gs[gi..] == gs[gi..|gs|] && gs[gi + 1..] == gs[gi + 1..|gs|];
    PrefixOfConcat(Sources(log), gs[gi].files, Flatten(gs[gi + 1..]));
  }

  /** A whole group relocated into its folder, followed by the run from the next group on. */
  lemma RelocatedAccounted(gs: seq<Group>, gi: nat, dir: string, log: seq<Effect>, rest: Run,
                            prefix: Date -> string)
    requires gi < |gs| && Accounted(gs, gi + 1, rest, prefix)
    requires Sources(log) == gs[gi].files && Dirs(log) == [dir] && prefix(gs[gi].date) <= dir
    requires NamesKept(log)
    ensures Accounted(gs, gi, After(log, rest), prefix)
  {
    var all := log + rest.log;
    var done := |Dirs(rest.log)|;
    assert After(log, rest) == Run(rest.outcome, all);
    assert NamesKept(all) by {
      NamesKeptAppend(log, rest.log);
    }
    assert Sources(all) <= Flatten(gs[gi..]) && |Dirs(all)| == 1 + done && Dirs(all) == [dir] + Dirs(rest.log) by {
      RelocatedPrefix(gs, gi, dir, log, rest.log);
    }
    if !(rest.outcome.Aborted? && rest.outcome.reason.RelocationFailed?) {
      assert gi + 1 + done <= |gs|;
      assert Sources(all) == Flatten(gs[gi..gi + 1 + done]) by {
        RelocatedSources(gs, gi, gi + 1 + done, log, rest.log);
      }
      assert DatedDirs(Dirs(all), gs[gi..], prefix) by {
        RelocatedDated(gs, gi, dir, Dirs(rest.log), prefix);
      }
    }
  }

  /** A relocated group in front keeps the files handled a prefix of the files of the groups, and adds one folder. */
  lemma RelocatedPrefix(gs: seq<Group>, gi: nat, dir: string, log: seq<Effect>, rest: seq<Effect>)
    requires gi < |gs| && Sources(rest) <= Flatten(gs[gi + 1..])
    requires Sources(log) == gs[gi].files && Dirs(log) == [dir]
    ensures Sources(log + rest) <= Flatten(gs[gi..])
    ensures Dirs(log + rest) == [dir] + Dirs(rest) && |Dirs(log + rest)| == 1 + |Dirs(rest)|
  {
    SourcesAppend(log, rest);
    DirsAppend(log, rest);
    FlattenSplit(gs, gi, |gs|);
    assert gs[gi..] == gs[gi..|gs|] && gs[gi + 1..] == gs[gi + 1..|gs|];
    PrefixAfterSame(gs[gi].files, Sources(rest), Flatten(gs[gi + 1..]));
  }

  /** A folder for the group in front of folders dated after the following groups. */
  lemma RelocatedDated(gs: seq<Group>, gi: nat, dir: string, dirs: seq<string>, prefix: Date -> string)
    requires gi < |gs| && DatedDirs(dirs, gs[gi + 1..], prefix) && prefix(gs[gi].date) <= dir
    ensures DatedDirs([dir] + dirs, gs[gi..], prefix)
  {
    assert ([dir] + dirs)[0] == dir && ([dir] + dirs)[1..] == dirs;
    assert gs[gi..][0] == gs[gi] && gs[gi..][1..] == gs[gi + 1..];
  }

  /** The files of a whole group handled in front of those of the following groups are the files of them all. */
  lemma RelocatedSources(gs: seq<Group>, gi: nat, end: nat, log: seq<Effect>, rest: seq<Effect>)
    requires gi < end <= |gs|
    requires Sources(rest) == Flatten(gs[gi + 1..end]) && Sources(log) == gs[gi].files
    ensures Sources(log + rest) == Flatten(gs[gi..end])
  {
    SourcesAppend(log, rest);
    FlattenSplit(gs, gi, end);
  }

  lemma RelocatedRelocates(gs: seq<Group>, gi: nat, dir: string, log: seq<Effect>, rest: seq<Effect>,
                           prefix: Date -> string)
    requires gi < |gs| && prefix(gs[gi].date) <= dir && Relocates(FileEffects(rest), gs[gi + 1..], prefix)
    requires FileEffects(log) == [CreatedDir(dir)] + MovesFor(dir, gs[gi].files)
    ensures Relocates(FileEffects(log + rest), gs[gi..], prefix)
  {
    FileEffectsAppend(log, rest);
    assert gs[gi..] == [gs[gi]] + gs[gi + 1..];
    RelocatesCons(dir, gs[gi], gs[gi + 1..], FileEffects(rest), prefix);
  }

  lemma PrefixAfterSame(c: seq<Path>, a: seq<Path>, b: seq<Path>)
    requires a <= b
    ensures c + a <= c + b
  {
    assert (c + b)[..|c + a|] == c + b[..|a|];
  }

  /**
   * Files are relocated group by group, in ascending date order, each at
   * most once, and keep their names. A session that completes has
   * relocated every file of every group and created one folder per group,
   * named after its date. A session that stops for any reason but a failed
   * file-system call has relocated whole groups only: "q" leaves the group
   * on screen untouched.
   */
  lemma {:induction false} NavigateAccounts(gs: seq<Group>, gi: nat, idx: nat, lines: seq<InputLine>, pos: nat,
                                            fs: FileSystem, resetIndex: bool, prefix: Date -> string)
    requires Valid(gs) && gi <= |gs| && pos <= |lines|
    requires forall d, c :: prefix(d) <= DirName(d, c)
    ensures Accounted(gs, gi, Navigate(gs, gi, idx, lines, pos, fs, resetIndex), prefix)
    decreases |lines| - pos, 0
  {
    if gi == |gs| {
      assert gs[gi..gi] == [];
    } else if idx >= |gs[gi].files| {
      ShownOnlyAccounted(gs, gi, [], Aborted(IndexOutOfBounds(gi, idx)), prefix);
    } else {
      var image := gs[gi].files[idx];
      var len := |gs[gi].files|;
      match FirstDecisive(lines, pos, ClassifyCommand)
      case EndOfInput =>
        ShownOnlyAccounted(gs, gi, [Shown(image)], AwaitingInput, prefix);
      case ReadFailed =>
        ShownOnlyAccounted(gs, gi, [Shown(image)], Aborted(InputFailed), prefix);
      case Answered(option, next) =>
        match option
        case Exit =>
          ShownOnlyAccounted(gs, gi, [Shown(image)], Aborted(Quit), prefix);
        case NextImage =>
          NavigateAccounts(gs, gi, Next(idx, len), lines, next, fs, resetIndex, prefix);
          ShownAccounted(gs, gi, image, Navigate(gs, gi, Next(idx, len), lines, next, fs, resetIndex), prefix);
        case PreviousImage =>
          NavigateAccounts(gs, gi, Previous(idx, len), lines, next, fs, resetIndex, prefix);
          ShownAccounted(gs, gi, image, Navigate(gs, gi, Previous(idx, len), lines, next, fs, resetIndex), prefix);
        case CityName(city) =>
          RelocateAccounts(gs, gi, idx, city, lines, next, fs, resetIndex, prefix);
          ShownAccounted(gs, gi, image, Relocate(gs, gi, idx, city, lines, next, fs, resetIndex), prefix);
    }
  }

  lemma {:induction false} RelocateAccounts(gs: seq<Group>, gi: nat, idx: nat, city: string, lines: seq<InputLine>,
                                            next: nat, fs: FileSystem, resetIndex: bool, prefix: Date -> string)
    requires Valid(gs) && gi < |gs| && next <= |lines|
    requires forall d, c :: prefix(d) <= DirName(d, c)
    ensures Accounted(gs, gi, Relocate(gs, gi, idx, city, lines, next, fs, resetIndex), prefix)
    decreases |lines| - next, 1
  {
    var group := gs[gi];
    var relocation := CopyImages(group.date, city, group.files, fs);
    CopyImagesMeaning(group.date, city, group.files, fs);
    CopyImagesHandlesPrefix(group.date, city, group.files, fs);
    NamesKeptEverywhere(relocation.log);
    if relocation.error.Some? {
      FailedRelocationAccounted(gs, gi, relocation.log, relocation.error.value, prefix);
    } else {
      var nextIdx := if resetIndex then 0 else idx;
      NavigateAccounts(gs, gi + 1, nextIdx, lines, next, fs, resetIndex, prefix);
      RelocatedAccounted(gs, gi, DirName(group.date, city), relocation.log,
                         Navigate(gs, gi + 1, nextIdx, lines, next, fs, resetIndex), prefix);
    }
  }

  /** A run stopped by a failed file-system call names a call that does fail. */
  predicate FailureGenuine(r: Run, fs: FileSystem)
  {
    r.outcome.Aborted? && r.outcome.reason.RelocationFailed? ==> Genuine(r.outcome.reason.error, fs)
  }

  /**
   * Every folder a navigation run from group `gi` creates belongs to the
   * group being relocated, and every file is moved into the folder just
   * created for its own group, under its own name. Every rename the run
   * reports worked, and a failure it stops on is one the file system gives.
   */
  lemma {:induction false} NavigateRelocates(gs: seq<Group>, gi: nat, idx: nat, lines: seq<InputLine>, pos: nat,
                                             fs: FileSystem, resetIndex: bool, prefix: Date -> string)
    requires Valid(gs) && gi <= |gs| && pos <= |lines|
    requires forall d, c :: prefix(d) <= DirName(d, c)
    ensures var r := Navigate(gs, gi, idx, lines, pos, fs, resetIndex);
      && Relocates(FileEffects(r.log), gs[gi..], prefix)
      && RenamesSucceeded(r.log, fs) && FailureGenuine(r, fs)
    decreases |lines| - pos, 0
  {
    if gi < |gs| && idx < |gs[gi].files| {
      var image := gs[gi].files[idx];
      var len := |gs[gi].files|;
      ShownIsHarmless(image, []);
      match FirstDecisive(lines, pos, ClassifyCommand)
      case EndOfInput =>
      case ReadFailed =>
      case Answered(option, next) =>
        match option
        case Exit =>
        case NextImage =>
          NavigateRelocates(gs, gi, Next(idx, len), lines, next, fs, resetIndex, prefix);
          ShownIsHarmless(image, Navigate(gs, gi, Next(idx, len), lines, next, fs, resetIndex).log);
        case PreviousImage =>
          NavigateRelocates(gs, gi, Previous(idx, len), lines, next, fs, resetIndex, prefix);
          ShownIsHarmless(image, Navigate(gs, gi, Previous(idx, len), lines, next, fs, resetIndex).log);
        case CityName(city) =>
          RelocateRelocates(gs, gi, idx, city, lines, next, fs, resetIndex, prefix);
          ShownIsHarmless(image, Relocate(gs, gi, idx, city, lines, next, fs, resetIndex).log);
    }
  }

  lemma {:induction false} RelocateRelocates(gs: seq<Group>, gi: nat, idx: nat, city: string, lines: seq<InputLine>,
                                             next: nat, fs: FileSystem, resetIndex: bool, prefix: Date -> string)
    requires Valid(gs) && gi < |gs| && next <= |lines|
    requires forall d, c :: prefix(d) <= DirName(d, c)
    ensures var r := Relocate(gs, gi, idx, city, lines, next, fs, resetIndex);
      && Relocates(FileEffects(r.log), gs[gi..], prefix)
      && RenamesSucceeded(r.log, fs) && FailureGenuine(r, fs)
    decreases |lines| - next, 1
  {
    var group := gs[gi];
    var dir := DirName(group.date, city);
    var relocation := CopyImages(group.date, city, group.files, fs);
    RelocationRelocates(gs, gi, city, fs, prefix);
    CopyImagesMeaning(group.date, city, group.files, fs);
    if relocation.error.None? {
      var nextIdx := if resetIndex then 0 else idx;
      var rest := Navigate(gs, gi + 1, nextIdx, lines, next, fs, resetIndex).log;
      RelocatedStep(gs, gi, idx, city, lines, next, fs, resetIndex);
      assert Relocate(gs, gi, idx, city, lines, next, fs, resetIndex).log == relocation.log + rest;
      NavigateRelocates(gs, gi + 1, nextIdx, lines, next, fs, resetIndex, prefix);
      assert Relocates(FileEffects(relocation.log + rest), gs[gi..], prefix) by {
        RelocatedRelocates(gs, gi, dir, relocation.log, rest, prefix);
      }
    }
  }

  /** The run ended in the panic of `images[image_idx]`. */
  predicate Panicked(r: Run)
  {
    r.outcome.Aborted? && r.outcome.reason.IndexOutOfBounds?
  }

  /** From group `from` on, no group has fewer files than the one before it. */
  predicate SizesNonDecreasing(gs: seq<Group>, from: nat)
  {
    forall g, h :: from <= g < h < |gs| ==> |gs[g].files| <= |gs[h].files|
  }

  /**
   * The precondition of `images[image_idx]`: the index is within the group
   * on screen. It holds throughout when each group starts at its first
   * image; with the index carried over, as written, it holds throughout
   * when no group is smaller than the one before it.
   */
  lemma {:induction false} NavigateInBounds(gs: seq<Group>, gi: nat, idx: nat, lines: seq<InputLine>, pos: nat,
                                            fs: FileSystem, resetIndex: bool)
    requires Valid(gs) && gi <= |gs| && pos <= |lines|
    requires gi < |gs| ==> idx < |gs[gi].files|
    requires resetIndex || SizesNonDecreasing(gs, gi)
    ensures !Panicked(Navigate(gs, gi, idx, lines, pos, fs, resetIndex))
    decreases |lines| - pos, 0
  {
    if gi < |gs| {
      var len := |gs[gi].files|;
      match FirstDecisive(lines, pos, ClassifyCommand) {
        case Answered(option, next) =>
          match option {
            case NextImage =>
              NavigateInBounds(gs, gi, Next(idx, len), lines, next, fs, resetIndex);
            case PreviousImage =>
              NavigateInBounds(gs, gi, Previous(idx, len), lines, next, fs, resetIndex);
            case CityName(city) =>
              RelocateInBounds(gs, gi, idx, city, lines, next, fs, resetIndex);
            case Exit =>
          }
        case EndOfInput =>
        case ReadFailed =>
      }
    }
  }

  lemma {:induction false} RelocateInBounds(gs: seq<Group>, gi: nat, idx: nat, city: string, lines: seq<InputLine>,
                                            next: nat, fs: FileSystem, resetIndex: bool)
    requires Valid(gs) && gi < |gs| && next <= |lines|
    requires idx < |gs[gi].files|
    requires resetIndex || SizesNonDecreasing(gs, gi)
    ensures !Panicked(Relocate(gs, gi, idx, city, lines, next, fs, resetIndex))
    decreases |lines| - next, 1
  {
    var relocation := CopyImages(gs[gi].date, city, gs[gi].files, fs);
    if relocation.error.None? {
      var nextIdx := if resetIndex then 0 else idx;
      if gi + 1 < |gs| {
        if resetIndex {
          assert |gs[gi + 1].files| > 0;
        } else {
          assert |gs[gi].files| <= |gs[gi + 1].files|;
        }
      }
      NavigateInBounds(gs, gi + 1, nextIdx, lines, next, fs, resetIndex);
      var rest := Navigate(gs, gi + 1, nextIdx, lines, next, fs, resetIndex);
      assert Relocate(gs, gi, idx, city, lines, next, fs, resetIndex) == After(relocation.log, rest);
    }
  }

  /** A one-character line that is neither whitespace nor upper case normalises to itself. */
  lemma TypedAlone(c: char)
    requires !IsWhitespace(c) && !IsAsciiUpper(c)
    ensures Normalize([c]) == [c]
  {
    assert [] + [c] + [] == [c];
    NormalizePadded([], c, []);
  }

  /**
   * The input of the counterexample below: "n" or "N", then two one-letter
   * city names. It settles the navigation prompt three times, once per line.
   */
  lemma NextThenTwoCities(lines: seq<InputLine>, n: char, x: char, y: char)
    requires n in "nN" && 'a' <= x <= 'z' && x !in "npq" && 'a' <= y <= 'z' && y !in "npq"
    requires lines == [Line([n]), Line([x]), Line([y])]
    ensures FirstDecisive(lines, 0, ClassifyCommand) == Answered(NextImage, 1)
    ensures FirstDecisive(lines, 1, ClassifyCommand) == Answered(CityName([x]), 2)
    ensures FirstDecisive(lines, 2, ClassifyCommand) == Answered(CityName([y]), 3)
  {
    assert lines[0] == Line([n]) && lines[1] == Line([x]) && lines[2] == Line([y]);
    assert FirstDecisive(lines, 0, ClassifyCommand) == Answered(NextImage, 1) by {
      assert [] + [n] + [] == [n];
      ReservedWordsAreCommands([], n, []);
      DecidedAt(lines, 0, ClassifyCommand, NextImage);
    }
    assert FirstDecisive(lines, 1, ClassifyCommand) == Answered(CityName([x]), 2) by {
      LetterIsCity(x);
      DecidedAt(lines, 1, ClassifyCommand, CityName([x]));
    }
    assert FirstDecisive(lines, 2, ClassifyCommand) == Answered(CityName([y]), 3) by {
      LetterIsCity(y);
      DecidedAt(lines, 2, ClassifyCommand, CityName([y]));
    }
  }

  lemma DecidedAt<T>(lines: seq<InputLine>, pos: nat, decide: string -> Option<T>, v: T)
    requires pos < |lines| && lines[pos].Line? && decide(lines[pos].text) == Some(v)
    ensures FirstDecisive(lines, pos, decide) == Answered(v, pos + 1)
  {
  }

  /** A line holding one lower-case letter other than "n", "p" and "q" names that city. */
  lemma LetterIsCity(c: char)
    requires 'a' <= c <= 'z' && c !in "npq"
    ensures ClassifyCommand([c]) == Some(CityName([c]))
  {
    TypedAlone(c);
    var w := Normalize([c]);
    assert w[0] == c;
    assert w != "n" && w != "p" && w != "q" && w != [];
  }

  lemma TwoShown(a: Effect, b: Effect, log: seq<Effect>)
    ensures [a] + ([b] + log) + [] == [a, b] + log
  {
  }

  /** One step of the navigation loop: a city name shows the current image and relocates the group. */
  lemma CityNameStep(gs: seq<Group>, gi: nat, idx: nat, lines: seq<InputLine>, pos: nat, fs: FileSystem,
                     resetIndex: bool, city: string, next: nat)
    requires Valid(gs) && gi < |gs| && idx < |gs[gi].files| && pos <= |lines|
    requires FirstDecisive(lines, pos, ClassifyCommand) == Answered(CityName(city), next)
    ensures Navigate(gs, gi, idx, lines, pos, fs, resetIndex)
            == After([Shown(gs[gi].files[idx])], Relocate(gs, gi, idx, city, lines, next, fs, resetIndex))
  {
  }

  /** One step of the navigation loop: "n" shows the current image and moves to the next one. */
  lemma NextImageStep(gs: seq<Group>, gi: nat, idx: nat, lines: seq<InputLine>, pos: nat, fs: FileSystem,
                      resetIndex: bool, next: nat)
    requires Valid(gs) && gi < |gs| && idx < |gs[gi].files| && pos <= |lines|
    requires FirstDecisive(lines, pos, ClassifyCommand) == Answered(NextImage, next)
    ensures Navigate(gs, gi, idx, lines, pos, fs, resetIndex)
            == After([Shown(gs[gi].files[idx])], Navigate(gs, gi, Next(idx, |gs[gi].files|), lines, next, fs, resetIndex))
  {
  }

  /** One step of the navigation loop: "p" shows the current image and moves to the previous one. */
  lemma PreviousImageStep(gs: seq<Group>, gi: nat, idx: nat, lines: seq<InputLine>, pos: nat, fs: FileSystem,
                          resetIndex: bool, next: nat)
    requires Valid(gs) && gi < |gs| && idx < |gs[gi].files| && pos <= |lines|
    requires FirstDecisive(lines, pos, ClassifyCommand) == Answered(PreviousImage, next)
    ensures Navigate(gs, gi, idx, lines, pos, fs, resetIndex)
            == After([Shown(gs[gi].files[idx])], Navigate(gs, gi, Previous(idx, |gs[gi].files|), lines, next, fs, resetIndex))
  {
  }

  /** A relocation that succeeds goes on with the next group. */
  lemma RelocatedStep(gs: seq<Group>, gi: nat, idx: nat, city: string, lines: seq<InputLine>, next: nat,
                      fs: FileSystem, resetIndex: bool)
    requires Valid(gs) && gi < |gs| && next <= |lines|
    requires CopyImages(gs[gi].date, city, gs[gi].files, fs).error.None?
    ensures Relocate(gs, gi, idx, city, lines, next, fs, resetIndex)
            == After(CopyImages(gs[gi].date, city, gs[gi].files, fs).log,
                     Navigate(gs, gi + 1, if resetIndex then 0 else idx, lines, next, fs, resetIndex))
  {
  }

  /**
   * The index carried over from one group to the next goes out of bounds:
   * on any two groups, the first with two images and the second with one,
   * and a file system where nothing fails, a first command "n" moves to the
   * second image of the first group, a city name relocates that group, and
   * then the second group is indexed at 1.
   */
  lemma CarriedIndexPanics(gs: seq<Group>, fs: FileSystem, lines: seq<InputLine>, city: string, p1: nat, p2: nat)
    requires Valid(gs) && |gs| == 2 && |gs[0].files| == 2 && |gs[1].files| == 1
    requires fs.failingDirs == {} && fs.failingMoves == {}
    requires p1 <= |lines| && FirstDecisive(lines, 0, ClassifyCommand) == Answered(NextImage, p1)
    requires FirstDecisive(lines, p1, ClassifyCommand) == Answered(CityName(city), p2)
    ensures Navigate(gs, 0, 0, lines, 0, fs, false)
            == Run(Aborted(IndexOutOfBounds(1, 1)),
                   [Shown(gs[0].files[0]), Shown(gs[0].files[1])] + CopyImages(gs[0].date, city, gs[0].files, fs).log)
  {
    var log := CopyImages(gs[0].date, city, gs[0].files, fs).log;
    CopyImagesNothingFails(gs[0].date, city, gs[0].files, fs);
    var panic := Navigate(gs, 1, 1, lines, p2, fs, false);
    assert panic == Run(Aborted(IndexOutOfBounds(1, 1)), []);
    RelocatedStep(gs, 0, 1, city, lines, p2, fs, false);
    CityNameStep(gs, 0, 1, lines, p1, fs, false, city, p2);
    assert Next(0, 2) == 1;
    NextImageStep(gs, 0, 0, lines, 0, fs, false, p1);
    AfterAfter([Shown(gs[0].files[1])], log, panic);
    AfterAfter([Shown(gs[0].files[0])], [Shown(gs[0].files[1])] + log, panic);
    TwoShown(Shown(gs[0].files[0]), Shown(gs[0].files[1]), log);
  }

  /** The same replies and one more city name, with each group starting at its first image, relocate both groups. */
  lemma ResetIndexCompletes(gs: seq<Group>, fs: FileSystem, lines: seq<InputLine>, city1: string, city2: string,
                            p1: nat, p2: nat, p3: nat)
    requires Valid(gs) && |gs| == 2 && |gs[0].files| == 2 && |gs[1].files| == 1
    requires fs.failingDirs == {} && fs.failingMoves == {}
    requires p1 <= |lines| && FirstDecisive(lines, 0, ClassifyCommand) == Answered(NextImage, p1)
    requires p2 <= |lines| && FirstDecisive(lines, p1, ClassifyCommand) == Answered(CityName(city1), p2)
    requires FirstDecisive(lines, p2, ClassifyCommand) == Answered(CityName(city2), p3)
    ensures var r := Navigate(gs, 0, 0, lines, 0, fs, true);
      r.outcome == Completed && Sources(r.log) == Flatten(gs)
  {
    var first := CopyImages(gs[0].date, city1, gs[0].files, fs);
    var second := CopyImages(gs[1].date, city2, gs[1].files, fs);
    var log := [Shown(gs[0].files[0])] + ([Shown(gs[0].files[1])] + (first.log + ([Shown(gs[1].files[0])] + (second.log + []))));
    CopyImagesNothingFails(gs[0].date, city1, gs[0].files, fs);
    CopyImagesNothingFails(gs[1].date, city2, gs[1].files, fs);
    ResetIndexRun(gs, fs, lines, city1, city2, p1, p2, p3);
    assert Sources(log) == Flatten(gs) by {
      SourcesOfTwoRelocations(gs[0].files[0], gs[0].files[1], gs[1].files[0], first.log, second.log);
      FlattenTwo(gs);
    }
  }

  lemma FlattenTwo(gs: seq<Group>)
    requires |gs| == 2
    ensures Flatten(gs) == gs[0].files + gs[1].files
  {
    assert gs[1..][1..] == [];
    assert Flatten(gs[1..]) == gs[1].files + [];
    assert gs[1].files + [] == gs[1].files;
  }

  /** The run of `ResetIndexCompletes`, step by step. */
  lemma ResetIndexRun(gs: seq<Group>, fs: FileSystem, lines: seq<InputLine>, city1: string, city2: string,
                      p1: nat, p2: nat, p3: nat)
    requires Valid(gs) && |gs| == 2 && |gs[0].files| == 2 && |gs[1].files| == 1
    requires CopyImages(gs[0].date, city1, gs[0].files, fs).error.None?
    requires CopyImages(gs[1].date, city2, gs[1].files, fs).error.None?
    requires p1 <= |lines| && FirstDecisive(lines, 0, ClassifyCommand) == Answered(NextImage, p1)
    requires p2 <= |lines| && FirstDecisive(lines, p1, ClassifyCommand) == Answered(CityName(city1), p2)
    requires FirstDecisive(lines, p2, ClassifyCommand) == Answered(CityName(city2), p3)
    ensures Navigate(gs, 0, 0, lines, 0, fs, true)
            == Run(Completed, [Shown(gs[0].files[0])] + ([Shown(gs[0].files[1])]
                 + (CopyImages(gs[0].date, city1, gs[0].files, fs).log
                    + ([Shown(gs[1].files[0])] + (CopyImages(gs[1].date, city2, gs[1].files, fs).log + [])))))
  {
    var done := Navigate(gs, 2, 0, lines, p3, fs, true);
    assert done == Run(Completed, []);
    RelocatedStep(gs, 1, 0, city2, lines, p3, fs, true);
    var second := Relocate(gs, 1, 0, city2, lines, p3, fs, true);
    CityNameStep(gs, 1, 0, lines, p2, fs, true, city2, p3);
    var third := Navigate(gs, 1, 0, lines, p2, fs, true);
    RelocatedStep(gs, 0, 1, city1, lines, p2, fs, true);
    var fourth := Relocate(gs, 0, 1, city1, lines, p2, fs, true);
    CityNameStep(gs, 0, 1, lines, p1, fs, true, city1, p2);
    assert Next(0, 2) == 1;
    NextImageStep(gs, 0, 0, lines, 0, fs, true, p1);
  }

  /** The files a session handles when it shows two images, relocates, shows one more and relocates again. */
  lemma SourcesOfTwoRelocations(a: Path, b: Path, c: Path, first: seq<Effect>, second: seq<Effect>)
    ensures Sources([Shown(a)] + ([Shown(b)] + (first + ([Shown(c)] + (second + [])))))
            == Sources(first) + Sources(second)
  {
    assert second + [] == second;
    ShownIsHarmless(c, second);
    SourcesAppend(first, [Shown(c)] + second);
    ShownIsHarmless(b, first + ([Shown(c)] + second));
    ShownIsHarmless(a, [Shown(b)] + (first + ([Shown(c)] + second)));
  }

  /** The whole of `main` once the working directory is known. */
  function Session(lines: seq<InputLine>, dir: Directory, fs: FileSystem, resetIndex: bool): Run
  {
    match FirstDecisive(lines, 0, ClassifyConfirmation)
    case EndOfInput => Run(AwaitingInput, [])
    case ReadFailed => Run(Aborted(InputFailed), [])
    case Answered(go, next) =>
      if !go then Run(Aborted(Declined), [])
      else
        match dir
        case Unlistable => Run(Aborted(ScanFailed(ListingFailed)), [])
        case Listed(entries) =>
          match Grouped(entries)
          case Err(e) => Run(Aborted(ScanFailed(e)), [])
          case Ok(gs) => Navigate(gs, 0, 0, lines, next, fs, resetIndex)
  }

  /**
   * `images[image_idx]` never panics when each group starts at its first
   * image; as written, it never panics when no group of the directory has
   * fewer files than the one before it.
   */
  lemma SessionInBounds(lines: seq<InputLine>, dir: Directory, fs: FileSystem, resetIndex: bool)
    requires resetIndex || (dir.Listed? && Grouped(dir.entries).Ok? ==> SizesNonDecreasing(Grouped(dir.entries).value, 0))
    ensures !Panicked(Session(lines, dir, fs, resetIndex))
  {
    match FirstDecisive(lines, 0, ClassifyConfirmation) {
      case Answered(go, next) =>
        if go && dir.Listed? && Grouped(dir.entries).Ok? {
          NavigateInBounds(Grouped(dir.entries).value, 0, 0, lines, next, fs, resetIndex);
        }
      case EndOfInput =>
      case ReadFailed =>
    }
  }

  /**
   * What a whole session does to the directory: nothing at all unless the
   * user confirmed and the directory was scanned and grouped; every move
   * keeps the file's name; the files handled are the accepted media files in
   * group order, each at most once; and a completed session has moved every
   * accepted media file of the directory, created one folder per date, in
   * ascending date order, each named after its date.
   */
  lemma SessionAccounts(lines: seq<InputLine>, dir: Directory, fs: FileSystem, resetIndex: bool)
    ensures var r := Session(lines, dir, fs, resetIndex);
      && NamesKept(r.log)
      && (r.log != [] ==>
            && FirstDecisive(lines, 0, ClassifyConfirmation).Answered?
            && FirstDecisive(lines, 0, ClassifyConfirmation).value
            && dir.Listed? && Grouped(dir.entries).Ok?)
      && (dir.Listed? && Grouped(dir.entries).Ok? ==> Sources(r.log) <= Flatten(Grouped(dir.entries).value))
      && (r.outcome == Completed ==>
            && dir.Listed? && Grouped(dir.entries).Ok?
            && multiset(Sources(r.log)) == multiset(AcceptedPaths(dir.entries))
            && |Dirs(r.log)| == |Grouped(dir.entries).value|
            && DatedDirs(Dirs(r.log), Grouped(dir.entries).value, DirPrefix))
      && (dir.Listed? && Grouped(dir.entries).Ok? ==> Relocates(FileEffects(r.log), Grouped(dir.entries).value, DirPrefix))
  {
    match FirstDecisive(lines, 0, ClassifyConfirmation) {
      case Answered(go, next) =>
        if go && dir.Listed? && Grouped(dir.entries).Ok? {
          var gs := Grouped(dir.entries).value;
          DirPrefixStartsDirName();
          NavigateAccounts(gs, 0, 0, lines, next, fs, resetIndex, DirPrefix);
          NavigateRelocates(gs, 0, 0, lines, next, fs, resetIndex, DirPrefix);
          GroupedPaths(dir.entries);
          assert gs[0..] == gs && gs[0..|gs|] == gs;
        }
      case EndOfInput =>
      case ReadFailed =>
    }
  }

  /**
   * A session reports only what the file system does: every file it says it
   * moved was renamed without error, and a failed call it stops on is one
   * that does fail.
   */
  lemma SessionReportsTruly(lines: seq<InputLine>, dir: Directory, fs: FileSystem, resetIndex: bool)
    ensures var r := Session(lines, dir, fs, resetIndex);
      RenamesSucceeded(r.log, fs) && FailureGenuine(r, fs)
  {
    match FirstDecisive(lines, 0, ClassifyConfirmation) {
      case Answered(go, next) =>
        if go && dir.Listed? && Grouped(dir.entries).Ok? {
          DirPrefixStartsDirName();
          NavigateRelocates(Grouped(dir.entries).value, 0, 0, lines, next, fs, resetIndex, DirPrefix);
        }
      case EndOfInput =>
      case ReadFailed =>
    }
  }

  /**
   * `main`: asks for confirmation, groups the directory's media files by
   * date, then for each group in ascending date order shows the image at
   * `image_idx` and reads a command until a city name relocates the group.
   * With `resetIndex` false this is `main` as written; with `resetIndex`
   * true each group starts at its first image.
   */
  method RunSession(lines: seq<InputLine>, dir: Directory, fs: FileSystem, resetIndex: bool) returns (run: Run)
    ensures run == Session(lines, dir, fs, resetIndex)
  {
    var confirmation := AskUserConfirmation(lines, 0);
    if confirmation.EndOfInput? {
      return Run(AwaitingInput, []);
    } else if confirmation.ReadFailed? {
      return Run(Aborted(InputFailed), []);
    } else if !confirmation.value {
      return Run(Aborted(Declined), []);
    }

    var grouped := GroupImagesInDir(dir);
    if grouped.Err? {
      return Run(Aborted(ScanFailed(grouped.error)), []);
    }
    run := NavigateGroups(grouped.value.groups, lines, confirmation.next, fs, resetIndex);
  }

  /**
   * The loop over the date groups in `main`. As written, `image_idx` is
   * declared once before the loop and never reset; `resetIndex` sets it
   * back to the first image whenever a group has been relocated.
   */
  method NavigateGroups(groups: seq<Group>, lines: seq<InputLine>, start: nat, fs: FileSystem, resetIndex: bool)
    returns (run: Run)
    requires Valid(groups) && start <= |lines|
    ensures run == Navigate(groups, 0, 0, lines, start, fs, resetIndex)
  {
    ghost var whole := Navigate(groups, 0, 0, lines, start, fs, resetIndex);
    var pos: nat := start;
    var log: seq<Effect> := [];
    var imageIdx: nat := 0;
    AfterNothing(whole);
    for gi := 0 to |groups|
      invariant pos <= |lines|
      invariant whole == After(log, Navigate(groups, gi, imageIdx, lines, pos, fs, resetIndex))
    {
      var date, images := groups[gi].date, groups[gi].files;
      while true
        invariant pos <= |lines|
        invariant whole == After(log, Navigate(groups, gi, imageIdx, lines, pos, fs, resetIndex))
        decreases |lines| - pos
      {
        if imageIdx >= |images| {
          return Run(Aborted(IndexOutOfBounds(gi, imageIdx)), log);
        }
        var currentImage := images[imageIdx];
        var reply := AskUserDirectoryName(lines, pos);
        match reply {
          case EndOfInput =>
            return Run(AwaitingInput, log + [Shown(currentImage)]);
          case ReadFailed =>
            return Run(Aborted(InputFailed), log + [Shown(currentImage)]);
          case Answered(option, next) =>
            match option {
              case Exit =>
                return Run(Aborted(Quit), log + [Shown(currentImage)]);
              case NextImage =>
                NextImageStep(groups, gi, imageIdx, lines, pos, fs, resetIndex, next);
                AfterAfter(log, [Shown(currentImage)], Navigate(groups, gi, Next(imageIdx, |images|), lines, next, fs, resetIndex));
                imageIdx := Next(imageIdx, |images|);
              case PreviousImage =>
                PreviousImageStep(groups, gi, imageIdx, lines, pos, fs, resetIndex, next);
                AfterAfter(log, [Shown(currentImage)], Navigate(groups, gi, Previous(imageIdx, |images|), lines, next, fs, resetIndex));
                imageIdx := Previous(imageIdx, |images|);
              case CityName(cityName) =>
                CityNameStep(groups, gi, imageIdx, lines, pos, fs, resetIndex, cityName, next);
                ghost var rest := Relocate(groups, gi, imageIdx, cityName, lines, next, fs, resetIndex);
                AfterAfter(log, [Shown(currentImage)], rest);
                log := log + [Shown(currentImage)];
                var relocation := CreateDirAndCopyImages(date, cityName, images, fs);
                if relocation.error.Some? {
                  return Run(Aborted(RelocationFailed(relocation.error.value)), log + relocation.log);
                }
                RelocatedStep(groups, gi, imageIdx, cityName, lines, next, fs, resetIndex);
                if resetIndex {
                  imageIdx := 0;
                }
                AfterAfter(log, relocation.log, Navigate(groups, gi + 1, imageIdx, lines, next, fs, resetIndex));
                log := log + relocation.log;
                pos := next;
                break;
            }
            log := log + [Shown(currentImage)];
            pos := next;
        }
      }
    }
    return Run(Completed, log);
  }
}
