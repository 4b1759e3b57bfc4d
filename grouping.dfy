/**
 * The date grouper, `group_images_in_dir`: a `BTreeMap<NaiveDate, Vec<PathBuf>>`
 * filled by appending each accepted path to the bucket of its date.
 * The map is modelled as its ascending list of (date, files) pairs.
 */
module Grouping {
  import opened Wrappers
  import opened Paths
  import opened Dates
  import opened Scanner

  datatype Group = Group(date: Date, files: seq<Path>)

  /** `ImageFileMap`: the groups in the order the map iterates them. */
  datatype ImageFileMap = ImageFileMap(groups: seq<Group>)

  /** Keys strictly ascending, as a `BTreeMap` iterates them. */
  predicate Ascending(gs: seq<Group>)
  {
    forall i, j :: 0 <= i < j < |gs| ==> Before(gs[i].date, gs[j].date)
  }

  /** The map invariant: ascending keys, and no bucket is empty. */
  predicate Valid(gs: seq<Group>)
  {
    Ascending(gs) && forall i :: 0 <= i < |gs| ==> |gs[i].files| > 0
  }

  /** The bucket for a date, empty when the date is not a key. */
  function Bucket(gs: seq<Group>, d: Date): seq<Path>
  {
    if gs == [] then [] else if gs[0].date == d then gs[0].files else Bucket(gs[1..], d)
  }

  /** The files of all buckets, in iteration order. */
  function Flatten(gs: seq<Group>): seq<Path>
  {
    if gs == [] then [] else gs[0].files + Flatten(gs[1..])
  }

  lemma {:induction false} BucketOfKey(gs: seq<Group>, i: nat)
    requires Ascending(gs) && i < |gs|
    ensures Bucket(gs, gs[i].date) == gs[i].files
  {
    if i > 0 {
      assert Before(gs[0].date, gs[i].date);
      BucketOfKey(gs[1..], i - 1);
    }
  }

  lemma {:induction false} BucketOfNonKey(gs: seq<Group>, d: Date)
    requires forall i :: 0 <= i < |gs| ==> gs[i].date != d
    ensures Bucket(gs, d) == []
  {
    if gs != [] {
      BucketOfNonKey(gs[1..], d);
    }
  }

  function Keys(gs: seq<Group>): set<Date>
  {
    if gs == [] then {} else {gs[0].date} + Keys(gs[1..])
  }

  lemma {:induction false} KeysBounded(gs: seq<Group>, lo: Date)
    requires forall i :: 0 <= i < |gs| ==> Before(lo, gs[i].date)
    ensures forall x :: x in Keys(gs) ==> Before(lo, x)
  {
    if gs != [] {
      KeysBounded(gs[1..], lo);
    }
  }

  lemma {:induction false} KeyAt(gs: seq<Group>, i: nat)
    requires i < |gs|
    ensures gs[i].date in Keys(gs)
  {
    if i > 0 {
      KeyAt(gs[1..], i - 1);
    }
  }

  /** A non-empty bucket whose date is below every key extends a valid map. */
  lemma ConsValid(g: Group, rest: seq<Group>)
    requires Valid(rest) && |g.files| > 0
    requires forall i :: 0 <= i < |rest| ==> Before(g.date, rest[i].date)
    ensures Valid([g] + rest)
  {
    var r := [g] + rest;
    forall i, j | 0 <= i < j < |r| ensures Before(r[i].date, r[j].date) {
      if i > 0 {
        assert r[i] == rest[i - 1] && r[j] == rest[j - 1];
      }
    }
  }

  /**
   * `map.entry(d).or_default().push(p)`: appends `p` to the bucket of `d`,
   * creating that bucket when `d` is not yet a key; every other bucket is
   * unchanged and the order of keys is kept.
   */
  function Insert(gs: seq<Group>, d: Date, p: Path): (r: seq<Group>)
    requires Valid(gs)
    ensures Valid(r)
    ensures Keys(r) == Keys(gs) + {d}
  {
    if gs == [] then
      [Group(d, [p])]
    else if gs[0].date == d then
      var r := [Group(d, gs[0].files + [p])] + gs[1..];
      assert r[1..] == gs[1..];
      ConsValid(Group(d, gs[0].files + [p]), gs[1..]);
      r
    else if Before(d, gs[0].date) then
      var r := [Group(d, [p])] + gs;
      assert r[1..] == gs;
      ConsValid(Group(d, [p]), gs);
      r
    else
      var rest := Insert(gs[1..], d, p);
      var r := [gs[0]] + rest;
      assert r[1..] == rest;
      KeysBounded(gs[1..], gs[0].date);
      assert forall i :: 0 <= i < |rest| ==> Before(gs[0].date, rest[i].date) by {
        forall i | 0 <= i < |rest| ensures Before(gs[0].date, rest[i].date) {
          KeyAt(rest, i);
        }
      }
      ConsValid(gs[0], rest);
      r
  }

  /** Inserting appends `p` to the bucket of `d` and leaves every other bucket as it was. */
  lemma {:induction false} InsertBucket(gs: seq<Group>, d: Date, p: Path, e: Date)
    requires Valid(gs)
    ensures Bucket(Insert(gs, d, p), e) == Bucket(gs, e) + (if e == d then [p] else [])
  {
    var r := Insert(gs, d, p);
    if gs == [] {
    } else if gs[0].date == d {
      assert r[1..] == gs[1..];
      BucketOfNonKey(gs[1..], d);
    } else if Before(d, gs[0].date) {
      assert r[1..] == gs;
      BucketOfNonKey(gs, d);
    } else {
      assert r[1..] == Insert(gs[1..], d, p);
      InsertBucket(gs[1..], d, p, e);
    }
  }

  /** Inserting adds exactly one path to the files of the whole map. */
  lemma {:induction false} InsertAddsOnePath(gs: seq<Group>, d: Date, p: Path)
    requires Valid(gs)
    ensures multiset(Flatten(Insert(gs, d, p))) == multiset(Flatten(gs)) + multiset{p}
  {
    if gs != [] && gs[0].date != d && !Before(d, gs[0].date) {
      var r := Insert(gs, d, p);
      assert r[1..] == Insert(gs[1..], d, p);
      InsertAddsOnePath(gs[1..], d, p);
    }
  }

  /** Whether the scan keeps an entry: a readable entry that passes `is_image_file`. */
  predicate Accepted(e: Entry)
  {
    e.Entry? && IsImageFile(e.path, e.isFile)
  }

  /** What an entry contributes to the map, or the error that stops the scan. */
  function Fault(e: Entry): Option<ScanError>
  {
    match e
    case BrokenEntry => Some(EntryFailed)
    case Entry(p, isFile, modified) =>
      if IsImageFile(p, isFile) && modified.None? then Some(MetadataFailed(p)) else None
  }

  /** The first failing entry's error: `entry?` and the metadata read are fatal. */
  function FirstFault(es: seq<Entry>): Option<ScanError>
  {
    if es == [] then None else if Fault(es[0]).Some? then Fault(es[0]) else FirstFault(es[1..])
  }

  /** Reference definition: the accepted paths dated `d`, in scan order. */
  function FilesOn(es: seq<Entry>, d: Date): seq<Path>
  {
    if es == [] then []
    else
      var e := es[|es| - 1];
      FilesOn(es[..|es| - 1], d) + (if Accepted(e) && e.modified == Some(d) then [e.path] else [])
  }

  /** The accepted paths, in scan order. */
  function AcceptedPaths(es: seq<Entry>): seq<Path>
  {
    if es == [] then []
    else
      var e := es[|es| - 1];
      AcceptedPaths(es[..|es| - 1]) + (if Accepted(e) then [e.path] else [])
  }

  /**
   * A path is in the bucket of `d` exactly when some accepted entry with
   * that path was modified on `d`: each accepted file lands in the bucket of
   * its own date and in no other.
   */
  lemma {:induction false} FilesOnMembers(es: seq<Entry>, d: Date, p: Path)
    ensures p in FilesOn(es, d) <==>
      exists i :: 0 <= i < |es| && Accepted(es[i]) && es[i].modified == Some(d) && es[i].path == p
  {
    if es != [] {
      var init := es[..|es| - 1];
      FilesOnMembers(init, d, p);
      if exists i :: 0 <= i < |es| && Accepted(es[i]) && es[i].modified == Some(d) && es[i].path == p {
        var i :| 0 <= i < |es| && Accepted(es[i]) && es[i].modified == Some(d) && es[i].path == p;
        if i < |es| - 1 {
          assert init[i] == es[i];
        }
      }
      if p in FilesOn(init, d) {
        var i :| 0 <= i < |init| && Accepted(init[i]) && init[i].modified == Some(d) && init[i].path == p;
        assert es[i] == init[i];
      }
    }
  }

  /** One turn of the loop body of `group_images_in_dir`. */
  function ScanStep(gs: seq<Group>, e: Entry): (r: Result<seq<Group>, ScanError>)
    requires Valid(gs)
  {
    match e
    case BrokenEntry => Err(EntryFailed)
    case Entry(p, isFile, modified) =>
      if !IsImageFile(p, isFile) then Ok(gs)
      else if modified.None? then Err(MetadataFailed(p))
      else Ok(Insert(gs, modified.value, p))
  }

  lemma {:induction false} FirstFaultPrefix(es: seq<Entry>, i: nat)
    requires i <= |es| && FirstFault(es[..i]).Some?
    ensures FirstFault(es) == FirstFault(es[..i])
  {
    if Fault(es[0]).None? {
      assert es[..i][1..] == es[1..][..i - 1];
      FirstFaultPrefix(es[1..], i - 1);
    }
  }

  lemma {:induction false} FirstFaultSnoc(es: seq<Entry>, e: Entry)
    ensures FirstFault(es + [e]) == if FirstFault(es).Some? then FirstFault(es) else Fault(e)
  {
    if es != [] {
      assert (es + [e])[1..] == es[1..] + [e];
      FirstFaultSnoc(es[1..], e);
    } else {
      assert (es + [e])[1..] == [];
    }
  }

  /**
   * The map the scan builds from a listing's entries, processed in order.
   * It fails exactly at the first fatal entry, and otherwise it is a valid
   * map.
   */
  function Grouped(es: seq<Entry>): (r: Result<seq<Group>, ScanError>)
    ensures r.Err? <==> FirstFault(es).Some?
    ensures r.Err? ==> r.error == FirstFault(es).value
    ensures r.Ok? ==> Valid(r.value)
  {
    if es == [] then Ok([])
    else
      var init, e := es[..|es| - 1], es[|es| - 1];
      assert es == init + [e];
      FirstFaultSnoc(init, e);
      match Grouped(init)
      case Err(x) => Err(x)
      case Ok(gs) => ScanStep(gs, e)
  }

  /** The bucket the scan builds for each date is exactly the accepted paths of that date, in scan order. */
  lemma {:induction false} GroupedBuckets(es: seq<Entry>, d: Date)
    ensures Grouped(es).Ok? ==> Bucket(Grouped(es).value, d) == FilesOn(es, d)
  {
    if es != [] && Grouped(es).Ok? {
      var init, e := es[..|es| - 1], es[|es| - 1];
      GroupedBuckets(init, d);
      var gs := Grouped(init).value;
      var added := if Accepted(e) && e.modified == Some(d) then [e.path] else [];
      assert FilesOn(es, d) == FilesOn(init, d) + added;
      if Accepted(e) {
        var m := e.modified.value;
        assert Grouped(es).value == Insert(gs, m, e.path);
        InsertBucket(gs, m, e.path, d);
      } else {
        assert Grouped(es).value == gs;
        assert added == [];
      }
    }
  }

  /** The buckets the scan builds hold, together, each accepted path once. */
  lemma {:induction false} GroupedPaths(es: seq<Entry>)
    ensures Grouped(es).Ok? ==> multiset(Flatten(Grouped(es).value)) == multiset(AcceptedPaths(es))
  {
    if es != [] && Grouped(es).Ok? {
      var init, e := es[..|es| - 1], es[|es| - 1];
      GroupedPaths(init);
      var gs := Grouped(init).value;
      if Accepted(e) {
        InsertAddsOnePath(gs, e.modified.value, e.path);
        assert Grouped(es).value == Insert(gs, e.modified.value, e.path);
        assert AcceptedPaths(es) == AcceptedPaths(init) + [e.path];
      } else {
        assert Grouped(es).value == gs;
        assert AcceptedPaths(es) == AcceptedPaths(init) + [];
      }
    }
  }

  /** One more entry: the scan so far, then one step on that entry. */
  lemma GroupedExtends(es: seq<Entry>, i: nat)
    requires i < |es|
    ensures Grouped(es[..i + 1]) == match Grouped(es[..i])
      case Err(x) => Err(x)
      case Ok(gs) => ScanStep(gs, es[i])
  {
    assert es[..i + 1][..i] == es[..i];
  }

  /** Once the scan of a prefix has failed, the scan of the whole listing fails the same way. */
  lemma GroupedStops(es: seq<Entry>, i: nat)
    requires i <= |es| && Grouped(es[..i]).Err?
    ensures Grouped(es) == Grouped(es[..i])
  {
    FirstFaultPrefix(es, i);
  }

  /** Reference definition of the whole scan: an unlistable directory, or the scan of its entries. */
  function Scan(dir: Directory): Result<ImageFileMap, ScanError>
  {
    match dir
    case Unlistable => Err(ListingFailed)
    case Listed(es) =>
      match Grouped(es)
      case Ok(gs) => Ok(ImageFileMap(gs))
      case Err(e) => Err(e)
  }

  /**
   * `group_images_in_dir`: lists the directory, and for each entry in turn
   * appends every accepted path to the bucket of its modification date.
   * The first listing, entry or metadata error ends the scan with that error.
   */
  method GroupImagesInDir(dir: Directory) returns (r: Result<ImageFileMap, ScanError>)
    ensures r == Scan(dir)
  {
    if dir.Unlistable? {
      return Err(ListingFailed);
    }
    var entries := dir.entries;
    var grouped: seq<Group> := [];
    var i := 0;
    while i < |entries|
      invariant 0 <= i <= |entries|
      invariant Grouped(entries[..i]) == Ok(grouped)
    {
      var entry := entries[i];
      GroupedExtends(entries, i);
      match entry {
        case BrokenEntry =>
          GroupedStops(entries, i + 1);
          return Err(EntryFailed);
        case Entry(path, isFile, modified) =>
          if IsImageFile(path, isFile) {
            if modified.None? {
              GroupedStops(entries, i + 1);
              return Err(MetadataFailed(path));
            }
            grouped := Insert(grouped, modified.value, path);
          }
      }
      i := i + 1;
    }
    assert entries[..i] == entries;
    return Ok(ImageFileMap(grouped));
  }
}
