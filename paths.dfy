/**
 * File-system paths as Rust's `std::path` sees them: a sequence of components
 * whose names are OS strings. An OS string is a sequence of units that are
 * either a decodable character or a raw byte that is not valid UTF-8, so that
 * `OsStr::to_str` can fail as it does in the source.
 */
module Paths {
  import opened Wrappers

  /** A byte that cannot stand for a character on its own: ASCII bytes are always characters. */
  newtype byte = b: int | 0x80 <= b < 256 witness 0x80

  datatype OsUnit = Char(c: char) | Raw(b: byte)

  type OsStr = seq<OsUnit>

  datatype Component = RootDir | CurDir | ParentDir | Normal(name: OsStr)

  datatype Path = Path(components: seq<Component>)

  /** An OS string made of characters only. */
  function FromString(s: string): (r: OsStr)
    ensures |r| == |s|
    ensures forall i :: 0 <= i < |s| ==> r[i] == Char(s[i])
  {
    if s == [] then [] else [Char(s[0])] + FromString(s[1..])
  }

  /** `OsStr::to_str`: the text, or None when some unit is not valid UTF-8. */
  function ToStr(s: OsStr): (r: Option<string>)
    ensures r.Some? <==> forall i :: 0 <= i < |s| ==> s[i].Char?
    ensures r.Some? ==> FromString(r.value) == s
  {
    if s == [] then Some("")
    else if s[0].Raw? then None
    else match ToStr(s[1..])
      case None => None
      case Some(t) => Some([s[0].c] + t)
  }

  /** `Path::file_name`: the last component when it is a normal name. */
  function FileName(p: Path): (r: Option<OsStr>)
    ensures r.Some? <==> |p.components| > 0 && p.components[|p.components| - 1].Normal?
    ensures r.Some? ==> p.components[|p.components| - 1] == Normal(r.value)
  {
    if |p.components| > 0 && p.components[|p.components| - 1].Normal?
    then Some(p.components[|p.components| - 1].name)
    else None
  }

  /** Index of the last '.' in a name, or -1 when there is none. */
  function LastDot(s: OsStr): (r: int)
    ensures -1 <= r < |s|
    ensures r >= 0 ==> s[r] == Char('.')
    ensures forall i :: r < i < |s| ==> s[i] != Char('.')
  {
    if s == [] then -1
    else if s[|s| - 1] == Char('.') then |s| - 1
    else LastDot(s[..|s| - 1])
  }

  /**
   * The extension of a file name, split at its last dot as std's
   * `rsplit_file_at_dot` does: ".." has none, a name without a dot has none,
   * a name whose only dot is its first unit (".jpg") has none, and otherwise
   * the extension is everything after the last dot, possibly empty.
   */
  function NameExtension(name: OsStr): (r: Option<OsStr>)
  {
    if name == [Char('.'), Char('.')] then None
    else
      var k := LastDot(name);
      if k <= 0 then None else Some(name[k + 1..])
  }

  /** `Path::extension`. */
  function Extension(p: Path): Option<OsStr>
  {
    match FileName(p)
    case None => None
    case Some(name) => NameExtension(name)
  }

  /** The path of a directory entry: the directory's path joined with the entry's name. */
  function Join(dir: Path, name: OsStr): (r: Path)
    ensures FileName(r) == Some(name)
    ensures |r.components| == |dir.components| + 1
    ensures r.components[..|dir.components|] == dir.components
  {
    Path(dir.components + [Normal(name)])
  }

  /** The extension is exactly the part after the last dot, and that dot is not the name's first unit. */
  lemma {:induction false} ExtensionSplitsAtLastDot(name: OsStr, ext: OsStr)
    requires name != [Char('.'), Char('.')]
    ensures NameExtension(name) == Some(ext) <==>
      (exists stem :: |stem| > 0 && name == stem + [Char('.')] + ext && Char('.') !in ext)
  {
    var k := LastDot(name);
    if NameExtension(name) == Some(ext) {
      var stem := name[..k];
      assert name == stem + [Char('.')] + ext;
      assert Char('.') !in ext by {
        forall i | 0 <= i < |ext| ensures ext[i] != Char('.') {
          assert ext[i] == name[k + 1 + i];
        }
      }
    }
    if exists stem :: |stem| > 0 && name == stem + [Char('.')] + ext && Char('.') !in ext {
      var stem :| |stem| > 0 && name == stem + [Char('.')] + ext && Char('.') !in ext;
      var d := |stem|;
      assert name[d] == Char('.');
      assert k == d;
      assert name[k + 1..] == ext;
    }
  }

  /** A name made of a non-empty stem, a dot and a dot-free tail has that tail as its extension. */
  lemma {:induction false} ExtensionOfDotted(stem: OsStr, ext: OsStr)
    requires |stem| > 0 && |ext| > 0 && Char('.') !in ext
    ensures NameExtension(stem + [Char('.')] + ext) == Some(ext)
  {
    var name := stem + [Char('.')] + ext;
    assert name != [Char('.'), Char('.')] by {
      assert |name| >= 3;
    }
    ExtensionSplitsAtLastDot(name, ext);
  }

  /** Text turned into an OS string converts back to the same text. */
  lemma {:induction false} ToStrFromString(s: string)
    ensures ToStr(FromString(s)) == Some(s)
  {
    if s != [] {
      var o := FromString(s);
      assert o[0] == Char(s[0]) && o[1..] == FromString(s[1..]);
      ToStrFromString(s[1..]);
      assert [s[0]] + s[1..] == s;
    }
  }
}
