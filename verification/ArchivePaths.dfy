/** Names inside a backup archive (src/backup/backup.go): a path of components below a prefix, written
    with slashes, and read back by the restore code. */
module ArchivePaths {
  import opened Wrappers
  import opened GoStrings

  type Path = seq<string>

  /** A file name: not empty, no slash, neither "." nor "..". */
  predicate ValidName(s: string) {
    s != "" && '/' !in s && s != "." && s != ".."
  }

  ghost predicate ValidPath(p: Path) {
    forall i :: 0 <= i < |p| ==> ValidName(p[i])
  }

  /** `strings.Contains(s, "..")`. */
  predicate HasDotDot(s: string) {
    exists i :: 0 <= i < |s| - 1 && s[i] == '.' && s[i + 1] == '.'
  }

  ghost predicate PathHasDotDot(p: Path) {
    exists i :: 0 <= i < |p| && HasDotDot(p[i])
  }

  /** The archive name of a path below a prefix; directories end in a slash. */
  function ArchiveName(prefix: string, p: Path, isDir: bool): string {
    Join([prefix] + p, '/') + (if isDir then "/" else "")
  }

  /** `filepath.Join(base, rest)` for a rest without "..": empty and "." components vanish. */
  function Clean(parts: seq<string>): Path {
    if parts == [] then []
    else (if parts[0] == "" || parts[0] == "." then [] else [parts[0]]) + Clean(parts[1..])
  }

  datatype Place = Place(top: string, path: Path)

  /** The first component of an archive name and the cleaned path below it; None if there is no slash. */
  function ReadName(name: string): Option<Place> {
    match IndexOf(name, '/')
    case None => None
    case Some(i) => Some(Place(name[..i], Clean(Split(name[i + 1..], '/'))))
  }

  // ---------------------------------------------------------------------------
  // Reading back what was written
  // ---------------------------------------------------------------------------

  lemma {:induction false} CleanValid(p: Path)
    requires ValidPath(p)
    ensures Clean(p) == p && Clean(p + [""]) == p
  {
    if p == [] {
      assert p + [""] == [""] && [""][1..] == [];
    } else {
      CleanValid(p[1..]);
      assert (p + [""])[1..] == p[1..] + [""];
      assert p == [p[0]] + p[1..];
    }
  }

  /** A trailing slash adds one empty component. */
  lemma {:induction false} JoinTrailing(parts: seq<string>)
    requires parts != []
    ensures Join(parts + [""], '/') == Join(parts, '/') + "/"
  {
    if |parts| == 1 {
      assert (parts + [""])[1..] == [""];
      assert parts[0] + ['/'] + "" == parts[0] + "/";
    } else {
      JoinTrailing(parts[1..]);
      assert (parts + [""])[1..] == parts[1..] + [""];
      assert parts[0] + ['/'] + (Join(parts[1..], '/') + "/") == parts[0] + ['/'] + Join(parts[1..], '/') + "/";
    }
  }

  /** The path below the prefix as the restore code splits it. */
  function Tail(p: Path, isDir: bool): seq<string> {
    if isDir then p + [""] else p
  }

  lemma NameShape(prefix: string, p: Path, isDir: bool)
    requires isDir || p != []
    ensures ArchiveName(prefix, p, isDir) == prefix + ['/'] + Join(Tail(p, isDir), '/')
  {
    if isDir {
      JoinTrailing([prefix] + p);
      assert [prefix] + p + [""] == [prefix] + (p + [""]);
      assert ([prefix] + (p + [""]))[1..] == p + [""];
    } else {
      assert ([prefix] + p)[1..] == p;
    }
  }

  /** Restore reads the path that was archived. */
  lemma ReadArchiveName(prefix: string, p: Path, isDir: bool)
    requires '/' !in prefix && ValidPath(p) && (isDir || p != [])
    ensures ReadName(ArchiveName(prefix, p, isDir)) == Some(Place(prefix, p))
  {
    var rest := Join(Tail(p, isDir), '/');
    NameShape(prefix, p, isDir);
    IndexOfExact(prefix, '/', rest);
    SplitJoin(Tail(p, isDir), '/');
    CleanValid(p);
    var name := prefix + ['/'] + rest;
    assert name[..|prefix|] == prefix && name[|prefix| + 1..] == rest;
  }

  // ---------------------------------------------------------------------------
  // Dots
  // ---------------------------------------------------------------------------

  lemma DotDotAcrossSlash(a: string, b: string)
    ensures HasDotDot(a + ['/'] + b) <==> HasDotDot(a) || HasDotDot(b)
  {
    var s := a + ['/'] + b;
    if HasDotDot(s) {
      var i :| 0 <= i < |s| - 1 && s[i] == '.' && s[i + 1] == '.';
      if i < |a| {
        assert s[i + 1] != '/';
        assert a[i] == '.' && a[i + 1] == '.';
      } else {
        var j := i - |a| - 1;
        assert b[j] == '.' && b[j + 1] == '.';
      }
    }
    if HasDotDot(a) {
      var i :| 0 <= i < |a| - 1 && a[i] == '.' && a[i + 1] == '.';
      assert s[i] == '.' && s[i + 1] == '.';
    }
    if HasDotDot(b) {
      var i :| 0 <= i < |b| - 1 && b[i] == '.' && b[i + 1] == '.';
      assert s[|a| + 1 + i] == '.' && s[|a| + 1 + i + 1] == '.';
    }
  }

  lemma {:induction false} DotDotInJoin(parts: seq<string>)
    requires parts != []
    ensures HasDotDot(Join(parts, '/')) <==> PathHasDotDot(parts)
  {
    hide HasDotDot;
    if |parts| > 1 {
      DotDotInJoin(parts[1..]);
      DotDotAcrossSlash(parts[0], Join(parts[1..], '/'));
      assert forall i :: 1 <= i < |parts| ==> parts[i] == parts[1..][i - 1];
    }
  }

  /** An archive name is refused for ".." exactly when some component of its path contains "..". */
  lemma DotDotInName(prefix: string, p: Path, isDir: bool)
    requires !HasDotDot(prefix) && (isDir || p != [])
    ensures HasDotDot(ArchiveName(prefix, p, isDir)) <==> PathHasDotDot(p)
  {
    NameShape(prefix, p, isDir);
    var t := Tail(p, isDir);
    DotDotAcrossSlash(prefix, Join(t, '/'));
    DotDotInJoin(t);
    assert !HasDotDot("");
    hide HasDotDot;
    assert forall i :: 0 <= i < |p| ==> t[i] == p[i];
  }
}
