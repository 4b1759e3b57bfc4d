/**
 * The file scanner: which directory entries are media files, and what a
 * directory listing looks like once the file system is turned into input.
 */
module Scanner {
  import opened Wrappers
  import opened Paths
  import opened Text
  import opened Dates

  /** The accepted extensions, compared after lower-casing. */
  const ValidFileExtensions: seq<string> := ["jpeg", "jpg", "mp4"]

  /**
   * One item of `fs::read_dir`: either an item the iterator failed to read,
   * or a path with what the file system answers about it (whether it is a
   * regular file, and its modification date in local time, None when the
   * metadata read fails).
   */
  datatype Entry =
    | BrokenEntry
    | Entry(path: Path, isFile: bool, modified: Option<Date>)

  /** The result of `fs::read_dir` on the working directory. */
  datatype Directory = Unlistable | Listed(entries: seq<Entry>)

  datatype ScanError = ListingFailed | EntryFailed | MetadataFailed(path: Path)

  /** `is_image_file`: a regular file whose extension is text and, lower-cased, a valid one. */
  function IsImageFile(p: Path, isFile: bool): bool
  {
    && isFile
    && match Extension(p)
       case None => false
       case Some(ext) =>
         match ToStr(ext)
         case None => false
         case Some(text) => ToLower(text) in ValidFileExtensions
  }

  lemma {:induction false} LowerKeepsDots(e: string)
    requires ToLower(e) in ValidFileExtensions
    ensures Char('.') !in FromString(e)
    ensures |e| >= 3
  {
    var l := ToLower(e);
    forall i | 0 <= i < |e| ensures FromString(e)[i] != Char('.') {
      assert l[i] == LowerChar(e[i]);
      assert l[i] != '.';
    }
  }

  /**
   * The filter in terms of the file's name: a path is accepted exactly when
   * it is a regular file whose name is a non-empty stem, a dot, and one of
   * the valid extensions in any mix of upper and lower case.
   */
  lemma ImageFileByName(p: Path, isFile: bool)
    ensures IsImageFile(p, isFile) <==>
      isFile && exists stem: OsStr, e: string ::
        (&& FileName(p) == Some(stem + [Char('.')] + FromString(e))
         && |stem| > 0
         && ToLower(e) in ValidFileExtensions)
  {
    if IsImageFile(p, isFile) {
      var name := FileName(p).value;
      var ext := Extension(p).value;
      var e := ToStr(ext).value;
      ExtensionSplitsAtLastDot(name, ext);
      var stem :| |stem| > 0 && name == stem + [Char('.')] + ext && Char('.') !in ext;
      assert FileName(p) == Some(stem + [Char('.')] + FromString(e));
    }
    if isFile && exists stem: OsStr, e: string ::
        (&& FileName(p) == Some(stem + [Char('.')] + FromString(e))
         && |stem| > 0
         && ToLower(e) in ValidFileExtensions) {
      var stem: OsStr, e: string :|
        && FileName(p) == Some(stem + [Char('.')] + FromString(e))
        && |stem| > 0
        && ToLower(e) in ValidFileExtensions;
      LowerKeepsDots(e);
      ExtensionOfDotted(stem, FromString(e));
      ToStrFromString(e);
    }
  }

  /** A name without an extension ("README", ".jpg", "..") is never accepted, whatever the entry is. */
  lemma {:induction false} NoExtensionRejected(p: Path, isFile: bool)
    requires Extension(p) == None
    ensures !IsImageFile(p, isFile)
  {
  }

  /** Changing the case of the extension never changes the verdict. */
  lemma {:induction false} CaseInsensitive(dir: Path, stem: OsStr, e1: string, e2: string, isFile: bool)
    requires |stem| > 0 && Char('.') !in FromString(e1) && Char('.') !in FromString(e2)
    requires ToLower(e1) == ToLower(e2)
    ensures IsImageFile(Join(dir, stem + [Char('.')] + FromString(e1)), isFile)
         == IsImageFile(Join(dir, stem + [Char('.')] + FromString(e2)), isFile)
  {
    if e1 == [] {
      assert |e2| == |ToLower(e2)| == 0;
      assert e1 == e2;
    } else {
      ExtensionOfDotted(stem, FromString(e1));
      ExtensionOfDotted(stem, FromString(e2));
      ToStrFromString(e1);
      ToStrFromString(e2);
    }
  }
}
