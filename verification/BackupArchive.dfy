/** Creating and restoring a backup archive (src/backup/backup.go): the entries written for the config
    and data trees, and what restoring them into empty targets recreates. */
module BackupArchive {
  import opened Wrappers
  import opened ArchivePaths

  /** A file system tree; `Special` stands for symlinks, devices and the like. */
  datatype Node = File(data: string) | Dir(children: seq<Child>) | Special

  datatype Child = Child(name: string, node: Node)

  /** Names are valid and distinct within each directory. */
  ghost predicate ValidTree(n: Node)
    decreases n
  {
    n.Dir? ==> ValidChildren(n.children)
  }

  ghost predicate ValidChildren(cs: seq<Child>)
    decreases cs
  {
    && (forall i :: 0 <= i < |cs| ==> ValidName(cs[i].name) && ValidTree(cs[i].node))
    && (forall i, j :: 0 <= i < j < |cs| ==> cs[i].name != cs[j].name)
  }

  // ---------------------------------------------------------------------------
  // Archiving
  // ---------------------------------------------------------------------------

  /** One entry of the archive: the path below its prefix, and the bytes of a file. */
  datatype Item = Item(path: Path, isDir: bool, data: string)

  datatype Record = Record(name: string, isDir: bool, data: string)

  function ToRecord(prefix: string, item: Item): Record {
    Record(ArchiveName(prefix, item.path, item.isDir), item.isDir, item.data)
  }

  function ToRecords(prefix: string, items: seq<Item>): seq<Record> {
    if items == [] then [] else [ToRecord(prefix, items[0])] + ToRecords(prefix, items[1..])
  }

  /** The entries of a walk, parents before children; special files are skipped. */
  function Walk(path: Path, n: Node): seq<Item>
    decreases n
  {
    match n
    case File(data) => [Item(path, false, data)]
    case Dir(children) => [Item(path, true, "")] + WalkChildren(path, children)
    case Special => []
  }

  function WalkChildren(path: Path, cs: seq<Child>): seq<Item>
    decreases cs
  {
    if cs == [] then [] else Walk(path + [cs[0].name], cs[0].node) + WalkChildren(path, cs[1..])
  }

  /** The archive of the two source trees, in either order; an absent tree is skipped. */
  function Archive(config: Option<Node>, data: Option<Node>, configFirst: bool): seq<Record> {
    var c := if config.Some? then ToRecords("config", Walk([], config.value)) else [];
    var d := if data.Some? then ToRecords("data", Walk([], data.value)) else [];
    if configFirst then c + d else d + c
  }

  // ---------------------------------------------------------------------------
  // Restoring
  // ---------------------------------------------------------------------------

  const MAX_FILE := 0x4000_0000

  /** At most 2^30 bytes of a file are written back. */
  function Cut(data: string): string {
    if |data| <= MAX_FILE then data else data[..MAX_FILE]
  }

  /** A directory tree on disk, by paths relative to its root. */
  datatype Fs = Fs(dirs: set<Path>, files: map<Path, string>)

  const EMPTY := Fs({}, map[])

  function Prefixes(p: Path): set<Path> {
    set i | 0 <= i <= |p| :: p[..i]
  }

  /** `os.MkdirAll`: fails when a file is in the way. */
  function MkdirAll(fs: Fs, p: Path): Option<Fs> {
    if exists q :: q in Prefixes(p) && q in fs.files then None else Some(fs.(dirs := fs.dirs + Prefixes(p)))
  }

  /** Writes a file, truncating what was there; fails on a directory. */
  function WriteFile(fs: Fs, p: Path, data: string): Option<Fs> {
    if p in fs.dirs then None else Some(fs.(files := fs.files[p := Cut(data)]))
  }

  function RestoreItem(fs: Fs, item: Item): Option<Fs> {
    if item.isDir then MkdirAll(fs, item.path)
    else if item.path == [] then None
    else
      match MkdirAll(fs, item.path[..|item.path| - 1])
      case None => None
      case Some(fs') => WriteFile(fs', item.path, item.data)
  }

  function RestoreItems(fs: Fs, items: seq<Item>): Option<Fs>
    decreases |items|
  {
    if items == [] then Some(fs)
    else
      match RestoreItem(fs, items[0])
      case None => None
      case Some(fs') => RestoreItems(fs', items[1..])
  }

  /** The restore targets; None is a target directory that is not configured. */
  datatype Targets = Targets(config: Option<Fs>, data: Option<Fs>)

  /** One entry; None is an error, which ends the restore. */
  function RestoreRecord(t: Targets, r: Record): Option<Targets> {
    if HasDotDot(r.name) then None
    else
      match ReadName(r.name)
      case None => Some(t)
      case Some(Place(top, path)) =>
        match Target(t, top) {
          case None => Some(t)
          case Some(fs) =>
            match RestoreItem(fs, Item(path, r.isDir, r.data))
            case None => None
            case Some(fs') => Some(SetTarget(t, top, fs'))
        }
  }

  /** Where entries of a prefix go. */
  function Target(t: Targets, top: string): Option<Fs> {
    if top == "config" then t.config else if top == "data" then t.data else None
  }

  function SetTarget(t: Targets, top: string, fs: Fs): Targets {
    if top == "config" then t.(config := Some(fs)) else t.(data := Some(fs))
  }

  function Restore(t: Targets, records: seq<Record>): Option<Targets>
    decreases |records|
  {
    if records == [] then Some(t)
    else
      match RestoreRecord(t, records[0])
      case None => None
      case Some(t') => Restore(t', records[1..])
  }

  // ---------------------------------------------------------------------------
  // What a tree should become
  // ---------------------------------------------------------------------------

  function Dirs(path: Path, n: Node): set<Path>
    decreases n
  {
    match n
    case Dir(children) => {path} + DirsOf(path, children)
    case _ => {}
  }

  function DirsOf(path: Path, cs: seq<Child>): set<Path>
    decreases cs
  {
    if cs == [] then {} else Dirs(path + [cs[0].name], cs[0].node) + DirsOf(path, cs[1..])
  }

  function Files(path: Path, n: Node): map<Path, string>
    decreases n
  {
    match n
    case File(data) => map[path := data]
    case Dir(children) => FilesOf(path, children)
    case Special => map[]
  }

  function FilesOf(path: Path, cs: seq<Child>): map<Path, string>
    decreases cs
  {
    if cs == [] then map[] else Files(path + [cs[0].name], cs[0].node) + FilesOf(path, cs[1..])
  }

  function CutAll(files: map<Path, string>): map<Path, string> {
    map p | p in files :: Cut(files[p])
  }

  /** The directories and files of a tree. */
  function Image(n: Option<Node>): Fs {
    if n.Some? then Fs(Dirs([], n.value), Files([], n.value)) else EMPTY
  }

  /** The image with every file cut to the restore limit. */
  function CutImage(n: Option<Node>): Fs {
    Fs(Image(n).dirs, CutAll(Image(n).files))
  }

  /** No archived name contains "..". */
  predicate SafeNames(n: Node)
    decreases n
  {
    n.Dir? ==> SafeChildren(n.children)
  }

  predicate SafeChildren(cs: seq<Child>)
    decreases cs
  {
    cs == [] ||
    ((cs[0].node.Special? || (!HasDotDot(cs[0].name) && SafeNames(cs[0].node))) && SafeChildren(cs[1..]))
  }

  // ---------------------------------------------------------------------------
  // Restoring one tree
  // ---------------------------------------------------------------------------

  /** `p` is at or below `path`. */
  predicate Under(path: Path, p: Path) {
    path <= p
  }

  /** The tree can be laid over what is there: no directory of it is an existing file, no file of it an
      existing directory. */
  ghost predicate Compatible(fs: Fs, path: Path, n: Node) {
    (forall p :: p in Dirs(path, n) ==> p !in fs.files) && (forall p :: p in Files(path, n) ==> p !in fs.dirs)
  }

  ghost predicate CompatibleBy(fs: Fs, path: Path, cs: seq<Child>) {
    (forall p :: p in DirsOf(path, cs) ==> p !in fs.files) && (forall p :: p in FilesOf(path, cs) ==> p !in fs.dirs)
  }

  /** The directory and all above it exist, and are no files. */
  ghost predicate Open(fs: Fs, path: Path) {
    Prefixes(path) <= fs.dirs && forall p :: p in Prefixes(path) ==> p !in fs.files
  }

  /** The directory above is open, if there is one. */
  ghost predicate OpenAbove(fs: Fs, path: Path) {
    path != [] ==> Open(fs, path[..|path| - 1])
  }

  /** What restoring a tree makes of what is there. */
  function Grown(fs: Fs, path: Path, n: Node): Fs {
    Fs(fs.dirs + Dirs(path, n), fs.files + CutAll(Files(path, n)))
  }

  function GrownBy(fs: Fs, path: Path, cs: seq<Child>): Fs {
    Fs(fs.dirs + DirsOf(path, cs), fs.files + CutAll(FilesOf(path, cs)))
  }

  /** Making a directory below open ones fails exactly when it is a file, and otherwise adds just it. */
  lemma MkdirBelow(fs: Fs, p: Path)
    requires OpenAbove(fs, p)
    ensures var made := fs.(dirs := fs.dirs + {p});
            if p in fs.files then MkdirAll(fs, p) == None else MkdirAll(fs, p) == Some(made) && Open(made, p)
  {
    assert p[..|p|] == p && p in Prefixes(p);
    if p == [] {
      assert Prefixes(p) == {p};
    } else {
      PrefixesStep(p);
      assert fs.dirs + Prefixes(p) == fs.dirs + {p};
    }
  }

  lemma PrefixesStep(p: Path)
    requires p != []
    ensures Prefixes(p) == Prefixes(p[..|p| - 1]) + {p}
  {
    var q := p[..|p| - 1];
    assert forall i :: 0 <= i <= |q| ==> p[..i] == q[..i];
    assert p[..|p|] == p;
  }

  /** Writing a file below open directories fails exactly when it is a directory. */
  lemma WriteBelow(fs: Fs, p: Path, data: string)
    requires OpenAbove(fs, p) && p != []
    ensures RestoreItem(fs, Item(p, false, data)) ==
            if p in fs.dirs then None else Some(fs.(files := fs.files[p := Cut(data)]))
  {
    var q := p[..|p| - 1];
    assert fs.dirs + Prefixes(q) == fs.dirs;
  }

  lemma {:induction false} RestoreAppend(fs: Fs, a: seq<Item>, b: seq<Item>)
    ensures RestoreItems(fs, a + b) ==
            match RestoreItems(fs, a) case None => None case Some(fs') => RestoreItems(fs', b)
    decreases |a|
  {
    if a == [] {
      assert a + b == b;
    } else {
      assert (a + b)[1..] == a[1..] + b;
      if RestoreItem(fs, a[0]).Some? {
        RestoreAppend(RestoreItem(fs, a[0]).value, a[1..], b);
      }
    }
  }

  /** Everything a tree adds lies at or below its path. */
  lemma {:induction false} TreeUnder(path: Path, n: Node)
    ensures forall p :: p in Dirs(path, n) || p in Files(path, n) ==> Under(path, p)
    decreases n
  {
    if n.Dir? { ChildrenUnder(path, n.children); }
  }

  lemma {:induction false} ChildrenUnder(path: Path, cs: seq<Child>)
    ensures forall p :: p in DirsOf(path, cs) || p in FilesOf(path, cs) ==>
              exists i :: 0 <= i < |cs| && Under(path + [cs[i].name], p)
    ensures forall p :: p in DirsOf(path, cs) || p in FilesOf(path, cs) ==> Under(path, p)
    decreases cs
  {
    if cs != [] {
      TreeUnder(path + [cs[0].name], cs[0].node);
      ChildrenUnder(path, cs[1..]);
      forall p | p in DirsOf(path, cs) || p in FilesOf(path, cs)
        ensures exists i :: 0 <= i < |cs| && Under(path + [cs[i].name], p)
        ensures Under(path, p)
      {
        if p in DirsOf(path, cs[1..]) || p in FilesOf(path, cs[1..]) {
          var i :| 0 <= i < |cs[1..]| && Under(path + [cs[1..][i].name], p);
          assert cs[i + 1] == cs[1..][i];
        }
      }
    }
  }

  /** Restoring the walk of a tree over what is there: it succeeds exactly when no directory of the tree is an
      existing file and no file of it an existing directory, and then adds its directories, writes its (cut)
      files and leaves everything else. */
  lemma {:induction false} RestoreWalk(fs: Fs, path: Path, n: Node)
    requires OpenAbove(fs, path) && ValidTree(n) && (path != [] || n.Dir?)
    ensures RestoreItems(fs, Walk(path, n)) == if Compatible(fs, path, n) then Some(Grown(fs, path, n)) else None
    decreases n, 1
  {
    match n
    case File(data) =>
      WriteBelow(fs, path, data);
      GrownFile(fs, path, data);
      RestoreOne(fs, Item(path, false, data));
    case Special =>
      assert Grown(fs, path, n) == fs;
    case Dir(children) =>
      var made := fs.(dirs := fs.dirs + {path});
      MkdirBelow(fs, path);
      CompatibleDir(fs, path, children);
      GrownDir(fs, path, children);
      RestoreFirst(fs, Item(path, true, ""), WalkChildren(path, children));
      if path !in fs.files {
        RestoreChildren(made, path, children);
      }
  }

  lemma CompatibleDir(fs: Fs, path: Path, cs: seq<Child>)
    ensures Compatible(fs, path, Dir(cs)) <==>
            path !in fs.files && CompatibleBy(fs.(dirs := fs.dirs + {path}), path, cs)
  {
    ChildrenUnder(path, cs);
    forall p | p in FilesOf(path, cs)
      ensures p != path
    {
      var i :| 0 <= i < |cs| && Under(path + [cs[i].name], p);
    }
  }

  lemma RestoreFirst(fs: Fs, item: Item, rest: seq<Item>)
    ensures RestoreItems(fs, [item] + rest) ==
            match RestoreItem(fs, item) case None => None case Some(fs') => RestoreItems(fs', rest)
  {
    hide RestoreItem;
    assert ([item] + rest)[1..] == rest;
  }

  lemma RestoreOne(fs: Fs, item: Item)
    ensures RestoreItems(fs, [item]) == RestoreItem(fs, item)
  {
    RestoreFirst(fs, item, []);
    assert [item] + [] == [item];
  }

  lemma GrownFile(fs: Fs, path: Path, data: string)
    ensures Grown(fs, path, File(data)) == fs.(files := fs.files[path := Cut(data)])
  {
    hide Cut;
    var cut := CutAll(map[path := data]);
    assert cut == map[path := Cut(data)];
    assert fs.files + cut == fs.files[path := Cut(data)];
  }

  lemma GrownDir(fs: Fs, path: Path, cs: seq<Child>)
    ensures GrownBy(fs.(dirs := fs.dirs + {path}), path, cs) == Grown(fs, path, Dir(cs))
  {
    MergeDirs(fs.dirs, {path}, DirsOf(path, cs));
  }

  /** The same for the children of a directory that has just been made. */
  lemma {:induction false} RestoreChildren(fs: Fs, path: Path, cs: seq<Child>)
    requires Open(fs, path) && ValidChildren(cs)
    ensures RestoreItems(fs, WalkChildren(path, cs)) ==
            if CompatibleBy(fs, path, cs) then Some(GrownBy(fs, path, cs)) else None
    decreases cs, 0
  {
    if cs == [] {
      assert fs.dirs + {} == fs.dirs && fs.files + CutAll(map[]) == fs.files;
    } else {
      var here, rest := path + [cs[0].name], cs[1..];
      var grown := Grown(fs, here, cs[0].node);
      assert here[..|here| - 1] == path;
      RestoreWalk(fs, here, cs[0].node);
      RestoreAppend(fs, Walk(here, cs[0].node), WalkChildren(path, rest));
      CompatibleFirst(fs, path, cs);
      GrownTwice(fs, path, cs);
      StillOpen(fs, path, cs[0]);
      RestoreChildren(grown, path, rest);
    }
  }

  /** The first child and the others do not get in each other's way. */
  lemma CompatibleFirst(fs: Fs, path: Path, cs: seq<Child>)
    requires cs != [] && ValidChildren(cs)
    ensures var here, n := path + [cs[0].name], cs[0].node;
            CompatibleBy(fs, path, cs) <==>
            Compatible(fs, here, n) && CompatibleBy(Grown(fs, here, n), path, cs[1..])
  {
    var here, n, rest := path + [cs[0].name], cs[0].node, cs[1..];
    TreeUnder(here, n);
    ChildrenUnder(path, rest);
    forall p | p in DirsOf(path, rest) || p in FilesOf(path, rest)
      ensures !Under(here, p)
    {
      var i :| 0 <= i < |rest| && Under(path + [rest[i].name], p);
      assert rest[i] == cs[i + 1];
      NextComponent(path, rest[i].name, p);
      NextComponent(path, cs[0].name, p);
    }
    hide Under;
  }

  lemma StillOpen(fs: Fs, path: Path, c: Child)
    requires Open(fs, path)
    ensures Open(Grown(fs, path + [c.name], c.node), path)
  {
    var here := path + [c.name];
    TreeUnder(here, c.node);
    forall p | p in Prefixes(path)
      ensures !Under(here, p)
    {
      assert |p| <= |path| < |here|;
    }
  }

  lemma NextComponent(path: Path, name: string, p: Path)
    ensures Under(path + [name], p) ==> |p| > |path| && p[|path|] == name
  {
    if Under(path + [name], p) {
      assert p[|path|] == (path + [name])[|path|];
    }
  }

  lemma GrownTwice(fs: Fs, path: Path, cs: seq<Child>)
    requires cs != []
    ensures GrownBy(Grown(fs, path + [cs[0].name], cs[0].node), path, cs[1..]) == GrownBy(fs, path, cs)
  {
    var here, n, rest := path + [cs[0].name], cs[0].node, cs[1..];
    MergeDirs(fs.dirs, Dirs(here, n), DirsOf(path, rest));
    MergeFiles(fs.files, Files(here, n), FilesOf(path, rest));
    hide Dirs, Files, CutAll;
  }

  lemma MergeDirs(a: set<Path>, b: set<Path>, c: set<Path>)
    ensures a + b + c == a + (b + c)
  {
  }

  lemma MergeFiles(a: map<Path, string>, b: map<Path, string>, c: map<Path, string>)
    ensures a + CutAll(b) + CutAll(c) == a + CutAll(b + c)
  {
    assert CutAll(b + c) == CutAll(b) + CutAll(c);
  }

  // ---------------------------------------------------------------------------
  // Names through the archive
  // ---------------------------------------------------------------------------

  /** A path a walk can produce. */
  ghost predicate Archivable(item: Item) {
    ValidPath(item.path) && (item.isDir || item.path != [])
  }

  ghost predicate AllArchivable(items: seq<Item>) {
    forall i :: 0 <= i < |items| ==> Archivable(items[i])
  }

  ghost predicate AnyDotDot(items: seq<Item>) {
    exists i :: 0 <= i < |items| && PathHasDotDot(items[i].path)
  }

  lemma {:induction false} WalkArchivable(path: Path, n: Node)
    requires ValidPath(path) && ValidTree(n) && (path != [] || n.Dir?)
    ensures AllArchivable(Walk(path, n))
    decreases n
  {
    if n.Dir? { WalkChildrenArchivable(path, n.children); }
  }

  lemma {:induction false} WalkChildrenArchivable(path: Path, cs: seq<Child>)
    requires ValidPath(path) && ValidChildren(cs)
    ensures AllArchivable(WalkChildren(path, cs))
    decreases cs
  {
    if cs != [] {
      WalkArchivable(path + [cs[0].name], cs[0].node);
      WalkChildrenArchivable(path, cs[1..]);
    }
  }

  lemma AnyDotDotAppend(a: seq<Item>, b: seq<Item>)
    ensures AnyDotDot(a + b) <==> AnyDotDot(a) || AnyDotDot(b)
  {
    hide PathHasDotDot;
    var s := a + b;
    assert forall i :: 0 <= i < |a| ==> s[i] == a[i];
    assert forall i :: 0 <= i < |b| ==> s[|a| + i] == b[i];
    assert forall i :: |a| <= i < |s| ==> s[i] == b[i - |a|];
  }

  lemma DotDotExtends(path: Path, name: string)
    ensures PathHasDotDot(path + [name]) <==> PathHasDotDot(path) || HasDotDot(name)
  {
    hide HasDotDot;
    var p := path + [name];
    assert forall i :: 0 <= i < |path| ==> p[i] == path[i];
    assert p[|path|] == name;
  }

  /** A walk produces a ".." exactly when some archived name holds one. */
  lemma {:induction false} WalkDotDot(path: Path, n: Node)
    requires !n.Special?
    ensures AnyDotDot(Walk(path, n)) <==> PathHasDotDot(path) || !SafeNames(n)
    decreases n
  {
    hide PathHasDotDot;
    match n
    case File(data) =>
      assert Walk(path, n)[0].path == path;
    case Dir(children) =>
      WalkChildrenDotDot(path, children);
      AnyDotDotAppend([Item(path, true, "")], WalkChildren(path, children));
      assert [Item(path, true, "")][0].path == path;
  }

  lemma {:induction false} WalkChildrenDotDot(path: Path, cs: seq<Child>)
    ensures AnyDotDot(WalkChildren(path, cs)) ==> PathHasDotDot(path) || !SafeChildren(cs)
    ensures !SafeChildren(cs) ==> AnyDotDot(WalkChildren(path, cs))
    decreases cs
  {
    hide PathHasDotDot, HasDotDot, AnyDotDot;
    if cs == [] {
      NoDotDotInNothing();
    } else {
      var here := path + [cs[0].name];
      AnyDotDotAppend(Walk(here, cs[0].node), WalkChildren(path, cs[1..]));
      WalkChildrenDotDot(path, cs[1..]);
      DotDotExtends(path, cs[0].name);
      if cs[0].node.Special? {
        NoDotDotInNothing();
      } else {
        WalkDotDot(here, cs[0].node);
      }
    }
  }

  lemma NoDotDotInNothing()
    ensures !AnyDotDot([])
  {
  }

  lemma PrefixesAreSafe()
    ensures '/' !in "config" && '/' !in "data" && !HasDotDot("config") && !HasDotDot("data")
  {
  }

  /** Restoring the record of an item restores the item below its prefix, or refuses it for "..". */
  lemma RestoreItemRecord(t: Targets, top: string, item: Item)
    requires (top == "config" || top == "data") && Target(t, top).Some? && Archivable(item)
    ensures RestoreRecord(t, ToRecord(top, item)) ==
            if PathHasDotDot(item.path) then None
            else match RestoreItem(Target(t, top).value, item)
                 case None => None
                 case Some(fs) => Some(SetTarget(t, top, fs))
  {
    hide HasDotDot, PathHasDotDot, RestoreItem, ArchiveName, ReadName;
    PrefixesAreSafe();
    DotDotInName(top, item.path, item.isDir);
    ReadArchiveName(top, item.path, item.isDir);
  }

  lemma {:induction false} RestoreItemRecords(t: Targets, top: string, items: seq<Item>)
    requires (top == "config" || top == "data") && Target(t, top).Some? && AllArchivable(items)
    ensures AnyDotDot(items) ==> Restore(t, ToRecords(top, items)) == None
    ensures !AnyDotDot(items) ==>
              Restore(t, ToRecords(top, items)) ==
              match RestoreItems(Target(t, top).value, items)
              case None => None
              case Some(fs) => Some(SetTarget(t, top, fs))
    decreases |items|
  {
    hide PathHasDotDot, RestoreItem, Archivable, RestoreRecord;
    if items != [] {
      var rest := items[1..];
      RestoreItemRecord(t, top, items[0]);
      assert AnyDotDot(items) <==> PathHasDotDot(items[0].path) || AnyDotDot(rest) by {
        AnyDotDotAppend([items[0]], rest);
        assert items == [items[0]] + rest;
        assert [items[0]][0].path == items[0].path;
      }
      assert ToRecords(top, items)[1..] == ToRecords(top, rest);
      var next := RestoreItem(Target(t, top).value, items[0]);
      if next.Some? {
        RestoreItemRecords(SetTarget(t, top, next.value), top, rest);
      }
    }
  }

  lemma {:induction false} RestoreRecordsAppend(t: Targets, a: seq<Record>, b: seq<Record>)
    ensures Restore(t, a + b) == match Restore(t, a) case None => None case Some(t') => Restore(t', b)
    decreases |a|
  {
    hide RestoreRecord;
    if a == [] {
      assert a + b == b;
    } else {
      assert (a + b)[1..] == a[1..] + b;
      if RestoreRecord(t, a[0]).Some? {
        RestoreRecordsAppend(RestoreRecord(t, a[0]).value, a[1..], b);
      }
    }
  }

  // ---------------------------------------------------------------------------
  // The round trip
  // ---------------------------------------------------------------------------

  /** A source that can be archived: absent, or a directory with valid names. */
  ghost predicate ValidSource(n: Option<Node>) {
    n.Some? ==> n.value.Dir? && ValidTree(n.value)
  }

  predicate SafeSource(n: Option<Node>) {
    n.Some? ==> SafeNames(n.value)
  }

  function SourceRecords(top: string, n: Option<Node>): seq<Record> {
    if n.Some? then ToRecords(top, Walk([], n.value)) else []
  }

  /** The source can be laid over what is in its target. */
  ghost predicate FitsOver(fs: Fs, n: Option<Node>) {
    n.Some? ==> Compatible(fs, [], n.value)
  }

  /** The target with the source laid over it. */
  function Overlay(fs: Fs, n: Option<Node>): Fs {
    if n.Some? then Grown(fs, [], n.value) else fs
  }

  /** One source, restored into its target. */
  lemma RestoreSource(t: Targets, top: string, n: Option<Node>, fs: Fs)
    requires (top == "config" || top == "data") && Target(t, top) == Some(fs) && ValidSource(n)
    ensures Restore(t, SourceRecords(top, n)) ==
            if SafeSource(n) && FitsOver(fs, n) then Some(SetTarget(t, top, Overlay(fs, n))) else None
  {
    hide RestoreRecord, RestoreItems, Grown, Compatible, PathHasDotDot, AllArchivable, AnyDotDot;
    if n.Some? {
      var items := Walk([], n.value);
      WalkArchivable([], n.value);
      WalkDotDot([], n.value);
      assert !PathHasDotDot([]) by { NoComponents(); }
      hide Walk, ValidTree, SafeNames, ToRecords;
      RestoreItemRecords(t, top, items);
      RestoreWalk(fs, [], n.value);
    }
  }

  lemma NoComponents()
    ensures !PathHasDotDot([])
  {
  }

  /** Restoring an archive over whatever is in its two targets, whichever source was written first: it succeeds
      exactly when no archived name contains "..", no archived directory is an existing file and no archived file
      an existing directory, and then lays both trees over what is there, with files cut to 2^30 bytes. */
  lemma RestoreOver(config: Option<Node>, data: Option<Node>, configFirst: bool, a: Fs, b: Fs)
    requires ValidSource(config) && ValidSource(data)
    ensures Restore(Targets(Some(a), Some(b)), Archive(config, data, configFirst)) ==
            if SafeSource(config) && SafeSource(data) && FitsOver(a, config) && FitsOver(b, data)
            then Some(Targets(Some(Overlay(a, config)), Some(Overlay(b, data)))) else None
  {
    hide Restore, Overlay, FitsOver, SafeSource, ToRecords;
    var t := Targets(Some(a), Some(b));
    var c, d := SourceRecords("config", config), SourceRecords("data", data);
    if configFirst {
      RestoreSource(t, "config", config, a);
      RestoreRecordsAppend(t, c, d);
      RestoreSource(SetTarget(t, "config", Overlay(a, config)), "data", data, b);
    } else {
      RestoreSource(t, "data", data, b);
      RestoreRecordsAppend(t, d, c);
      RestoreSource(SetTarget(t, "data", Overlay(b, data)), "config", config, a);
    }
  }

  const FRESH := Targets(Some(EMPTY), Some(EMPTY))

  lemma OverNothing(n: Option<Node>)
    ensures FitsOver(EMPTY, n) && Overlay(EMPTY, n) == CutImage(n)
  {
    if n.Some? {
      assert Compatible(EMPTY, [], n.value);
      GrownFromNothing(n.value);
    } else {
      assert CutAll(map[]) == map[];
    }
  }

  /** What a tree adds to an empty target is its image. */
  lemma GrownFromNothing(n: Node)
    ensures Grown(EMPTY, [], n) == CutImage(Some(n))
  {
    hide Dirs, Files, CutAll;
    var files := CutAll(Files([], n));
    assert {} + Dirs([], n) == Dirs([], n);
    assert map[] + files == files;
  }

  /** Restoring into empty targets fails exactly when some archived name contains "..", and otherwise recreates
      both trees with files cut to 2^30 bytes. */
  lemma RestoreArchive(config: Option<Node>, data: Option<Node>, configFirst: bool)
    requires ValidSource(config) && ValidSource(data)
    ensures Restore(FRESH, Archive(config, data, configFirst)) ==
            if SafeSource(config) && SafeSource(data)
            then Some(Targets(Some(CutImage(config)), Some(CutImage(data)))) else None
  {
    hide Restore, Archive, CutImage, SafeSource, FitsOver, Overlay;
    RestoreOver(config, data, configFirst, EMPTY, EMPTY);
    OverNothing(config);
    OverNothing(data);
  }

  ghost predicate FitsLimit(n: Option<Node>) {
    forall p :: p in Image(n).files ==> |Image(n).files[p]| <= MAX_FILE
  }

  lemma CutNothing(n: Option<Node>)
    ensures CutImage(n) == Image(n) <==> FitsLimit(n)
  {
    var files := Image(n).files;
    if CutImage(n) == Image(n) {
      forall p | p in files
        ensures |files[p]| <= MAX_FILE
      {
        assert CutAll(files)[p] == Cut(files[p]);
      }
    }
    if FitsLimit(n) {
      assert CutAll(files) == files;
    }
  }

  /** The round trip is exact - the same relative paths, the same bytes - if and only if no archived name
      contains ".." and no file is larger than 2^30 bytes. */
  lemma RoundTripExactly(config: Option<Node>, data: Option<Node>, configFirst: bool)
    requires ValidSource(config) && ValidSource(data)
    ensures Restore(FRESH, Archive(config, data, configFirst)) ==
              Some(Targets(Some(Image(config)), Some(Image(data)))) <==>
            SafeSource(config) && SafeSource(data) && FitsLimit(config) && FitsLimit(data)
  {
    hide Restore, Archive, CutImage, Image, SafeSource, FitsLimit;
    RestoreArchive(config, data, configFirst);
    CutNothing(config);
    CutNothing(data);
  }

  /** A file with two dots in its name is archived, and the restore then refuses the archive. */
  lemma TwoDotsAreRefused(content: string, data: Option<Node>, configFirst: bool)
    requires ValidSource(data)
    ensures var config := Some(Dir([Child("a..b", File(content))]));
            ValidSource(config) && Restore(FRESH, Archive(config, data, configFirst)) == None
  {
    var child := Child("a..b", File(content));
    var config := Some(Dir([child]));
    assert ValidChildren([child]);
    assert "a..b"[1] == '.' && "a..b"[2] == '.';
    assert HasDotDot("a..b");
    assert !SafeChildren([child]);
    hide Restore, Archive, CutImage;
    RestoreArchive(config, data, configFirst);
  }
}
