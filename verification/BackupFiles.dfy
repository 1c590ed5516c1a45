/** The loops of src/backup/backup.go that append entries to an archive and write entries below the
    target directories, each against its specification in `BackupArchive`. */
module BackupFiles {
  import opened Wrappers
  import opened ArchivePaths
  import opened BackupArchive

  lemma {:induction false} ToRecordsAppend(prefix: string, a: seq<Item>, b: seq<Item>)
    ensures ToRecords(prefix, a + b) == ToRecords(prefix, a) + ToRecords(prefix, b)
  {
    if a == [] {
      assert a + b == b;
    } else {
      assert (a + b)[1..] == a[1..] + b;
      ToRecordsAppend(prefix, a[1..], b);
    }
  }

  /** `done` and what is left make up the whole. */
  ghost predicate Splits<T>(whole: seq<T>, done: seq<T>, left: seq<T>) {
    whole == done + left
  }

  lemma SplitsOn<T>(whole: seq<T>, done: seq<T>, more: seq<T>, left: seq<T>)
    requires Splits(whole, done, more + left)
    ensures Splits(whole, done + more, left)
  {
    assert done + more + left == done + (more + left);
  }

  lemma SplitsAll<T>(whole: seq<T>, done: seq<T>)
    requires Splits(whole, done, [])
    ensures whole == done
  {
  }

  /** The archive under construction. */
  class TarWriter {
    var records: seq<Record>

    constructor ()
      ensures records == []
    {
      records := [];
    }

    method WriteEntry(prefix: string, item: Item)
      modifies this
      ensures records == old(records) + ToRecords(prefix, [item])
    {
      records := records + [ToRecord(prefix, item)];
    }

    /** `addTreeToTar`: a directory before what is in it, special files skipped. */
    method AddTree(prefix: string, path: Path, n: Node)
      modifies this
      ensures records == old(records) + ToRecords(prefix, Walk(path, n))
      decreases n, 1
    {
      match n
      case File(data) => WriteEntry(prefix, Item(path, false, data));
      case Special =>
      case Dir(children) =>
        WriteEntry(prefix, Item(path, true, ""));
        ToRecordsAppend(prefix, [Item(path, true, "")], WalkChildren(path, children));
        hide ToRecords;
        AddChildren(prefix, path, children);
    }

    method AddChildren(prefix: string, path: Path, children: seq<Child>)
      modifies this
      ensures records == old(records) + ToRecords(prefix, WalkChildren(path, children))
      decreases children, 0
    {
      ghost var whole := records + ToRecords(prefix, WalkChildren(path, children));
      assert Splits(whole, records, ToRecords(prefix, WalkChildren(path, children)));
      hide ToRecords, Walk, WalkChildren, Splits;
      assert children[0..] == children;
      for i := 0 to |children|
        invariant Splits(whole, records, ToRecords(prefix, WalkChildren(path, children[i..])))
      {
        ghost var was := records;
        NextChild(prefix, path, children, i);
        AddTree(prefix, path + [children[i].name], children[i].node);
        SplitsOn(whole, was, ToRecords(prefix, Walk(path + [children[i].name], children[i].node)),
                 ToRecords(prefix, WalkChildren(path, children[i + 1..])));
      }
      NoMoreChildren(prefix, path, children[|children|..]);
      SplitsAll(whole, records);
    }
  }

  lemma NextChild(prefix: string, path: Path, cs: seq<Child>, i: nat)
    requires i < |cs|
    ensures ToRecords(prefix, WalkChildren(path, cs[i..])) ==
            ToRecords(prefix, Walk(path + [cs[i].name], cs[i].node)) +
            ToRecords(prefix, WalkChildren(path, cs[i + 1..]))
  {
    assert cs[i..][0] == cs[i] && cs[i..][1..] == cs[i + 1..];
    ToRecordsAppend(prefix, Walk(path + [cs[i].name], cs[i].node), WalkChildren(path, cs[i + 1..]));
  }

  lemma NoMoreChildren(prefix: string, path: Path, cs: seq<Child>)
    requires cs == []
    ensures ToRecords(prefix, WalkChildren(path, cs)) == []
  {
  }

  /** A prefix with its source directory; None if none is configured or it does not exist. */
  datatype Source = Source(prefix: string, root: Option<Node>)

  function SourcesRecords(sources: seq<Source>): seq<Record> {
    if sources == [] then []
    else SourceRecords(sources[0].prefix, sources[0].root) + SourcesRecords(sources[1..])
  }

  /** The line of the manifest for one source. */
  function SourceContents(s: Source): seq<string> {
    if s.root.Some? then [s.prefix + "/"] else []
  }

  function SourcesContents(sources: seq<Source>): seq<string> {
    if sources == [] then []
    else SourceContents(sources[0]) + SourcesContents(sources[1..])
  }

  /** The two sources in either order give the archive that the round trip speaks of. */
  lemma ArchiveOfSources(config: Option<Node>, data: Option<Node>, configFirst: bool)
    ensures var c, d := Source("config", config), Source("data", data);
            var sources := if configFirst then [c, d] else [d, c];
            var (configLine, dataLine) :=
              (if config.Some? then ["config/"] else [], if data.Some? then ["data/"] else []);
            && SourcesRecords(sources) == Archive(config, data, configFirst)
            && SourcesContents(sources) == if configFirst then configLine + dataLine else dataLine + configLine
  {
    hide ToRecords, Walk;
    var c, d := Source("config", config), Source("data", data);
    assert [c, d][1..] == [d] && [d, c][1..] == [c];
    OneSource(c);
    OneSource(d);
    assert "config" + "/" == "config/" && "data" + "/" == "data/";
  }

  lemma OneSource(s: Source)
    ensures SourcesRecords([s]) == SourceRecords(s.prefix, s.root) && SourcesContents([s]) == SourceContents(s)
  {
    hide SourceRecords, SourceContents;
    assert [s][1..] == [];
  }

  lemma NextSource(sources: seq<Source>, i: nat)
    requires i < |sources|
    ensures SourcesRecords(sources[i..]) ==
            SourceRecords(sources[i].prefix, sources[i].root) + SourcesRecords(sources[i + 1..])
    ensures SourcesContents(sources[i..]) ==
            SourceContents(sources[i]) + SourcesContents(sources[i + 1..])
  {
    assert sources[i..][0] == sources[i] && sources[i..][1..] == sources[i + 1..];
  }

  /** The loop of `createArchive` over its sources, in the order the map yields them: the archive, and the
      manifest's list of the prefixes it holds. */
  method CreateArchive(sources: seq<Source>) returns (records: seq<Record>, contents: seq<string>)
    ensures records == SourcesRecords(sources)
    ensures contents == SourcesContents(sources)
  {
    var tw := new TarWriter();
    contents := [];
    ghost var all, names := SourcesRecords(sources), SourcesContents(sources);
    assert Splits(all, [], all) && Splits(names, [], names);
    hide SourcesRecords, SourcesContents, SourceRecords, Splits;
    assert sources[0..] == sources;
    for i := 0 to |sources|
      invariant Splits(all, tw.records, SourcesRecords(sources[i..]))
      invariant Splits(names, contents, SourcesContents(sources[i..]))
    {
      NextSource(sources, i);
      SplitsOn(all, tw.records, SourceRecords(sources[i].prefix, sources[i].root), SourcesRecords(sources[i + 1..]));
      SplitsOn(names, contents, SourceContents(sources[i]), SourcesContents(sources[i + 1..]));
      SourceAlone(sources[i]);
      var Source(prefix, root) := sources[i];
      if root.Some? {
        tw.AddTree(prefix, [], root.value);
        contents := contents + [prefix + "/"];
      }
    }
    NoMoreSources(sources[|sources|..]);
    SplitsAll(all, tw.records);
    SplitsAll(names, contents);
    return tw.records, contents;
  }

  lemma SourceAlone(s: Source)
    ensures s.root.None? ==> forall a :: a + SourceRecords(s.prefix, s.root) == a
    ensures s.root.None? ==> forall a :: a + SourceContents(s) == a
    ensures s.root.Some? ==> SourceRecords(s.prefix, s.root) == ToRecords(s.prefix, Walk([], s.root.value))
    ensures s.root.Some? ==> SourceContents(s) == [s.prefix + "/"]
  {
  }

  lemma NoMoreSources(sources: seq<Source>)
    requires sources == []
    ensures SourcesRecords(sources) == [] && SourcesContents(sources) == []
  {
  }

  /** A directory that entries are restored into, by paths relative to it. */
  class TargetDir {
    var dirs: set<Path>
    var files: map<Path, string>
    /** Where copying into an opened file fails, and after how many bytes. */
    const fault: Path -> Option<nat>

    function View(): Fs
      reads this
    {
      Fs(dirs, files)
    }

    constructor (fault: Path -> Option<nat>)
      ensures View() == EMPTY && this.fault == fault
    {
      dirs, files := {}, map[];
      this.fault := fault;
    }

    /** `os.MkdirAll`, from the root down; a failure leaves the directories made so far. */
    method MakeAll(p: Path) returns (ok: bool)
      modifies this
      ensures ok <==> MkdirAll(old(View()), p).Some?
      ensures ok ==> View() == MkdirAll(old(View()), p).value
      ensures files == old(files) && old(dirs) <= dirs <= old(dirs) + Prefixes(p)
    {
      ghost var made: set<Path> := {};
      for i := 0 to |p| + 1
        invariant files == old(files) && dirs == old(dirs) + made
        invariant made == set j | 0 <= j < i :: p[..j]
        invariant forall q :: q in made ==> q !in files
      {
        if p[..i] in files {
          assert p[..i] in Prefixes(p);
          return false;
        }
        dirs, made := dirs + {p[..i]}, made + {p[..i]};
      }
      assert made == Prefixes(p);
      return true;
    }

    /** Opens the file for writing, truncated, and copies at most 2^30 bytes. When the copy fails, what was in
        the file before is gone and the bytes copied so far are there. */
    method Write(p: Path, data: string) returns (ok: bool)
      modifies this`files
      ensures ok <==> WriteFile(old(View()), p, data).Some? && fault(p).None?
      ensures ok ==> View() == WriteFile(old(View()), p, data).value
      ensures !ok && p in dirs ==> files == old(files)
      ensures !ok && p !in dirs ==> files == old(files)[p := Copied(data, fault(p).value)]
    {
      if p in dirs { return false; }
      files := files[p := ""];
      if fault(p).Some? {
        files := files[p := Copied(data, fault(p).value)];
        return false;
      }
      files := files[p := Cut(data)];
      return true;
    }

    /** The switch of `RunRestore` over the kind of an entry. On a failure only the file of the entry itself
        may have changed. */
    method RestoreEntry(item: Item) returns (ok: bool)
      modifies this
      ensures ok <==> RestoreItem(old(View()), item).Some? && (item.isDir || fault(item.path).None?)
      ensures ok ==> View() == RestoreItem(old(View()), item).value
      ensures !ok ==> old(dirs) <= dirs && files - {item.path} == old(files) - {item.path}
      ensures !ok && item.isDir ==> files == old(files)
    {
      if item.isDir {
        ok := MakeAll(item.path);
      } else if item.path == [] {
        ok := false;
      } else {
        ok := MakeAll(item.path[..|item.path| - 1]);
        if ok { ok := Write(item.path, item.data); }
      }
    }
  }

  /** What a copy that fails after `n` bytes leaves. */
  function Copied(data: string, n: nat): string {
    var cut := Cut(data);
    if n <= |cut| then cut[..n] else cut
  }

  /** The target directories by prefix; a prefix without a directory is absent. */
  function TargetsOf(prefixDirs: map<string, TargetDir>): Targets
    reads prefixDirs.Values
  {
    Targets(if "config" in prefixDirs then Some(prefixDirs["config"].View()) else None,
            if "data" in prefixDirs then Some(prefixDirs["data"].View()) else None)
  }

  ghost predicate DistinctDirs(prefixDirs: map<string, TargetDir>) {
    && prefixDirs.Keys <= {"config", "data"}
    && ("config" in prefixDirs && "data" in prefixDirs ==> prefixDirs["config"] != prefixDirs["data"])
  }

  /** Restoring the entry fails in the copy. */
  predicate Faulty(prefixDirs: map<string, TargetDir>, r: Record) {
    var place := ReadName(r.name);
    !r.isDir && place.Some? && place.value.top in prefixDirs &&
    prefixDirs[place.value.top].fault(place.value.path).Some?
  }

  /** One turn of the loop of `RunRestore`. */
  method RestoreNext(r: Record, prefixDirs: map<string, TargetDir>) returns (ok: bool)
    requires DistinctDirs(prefixDirs)
    modifies prefixDirs.Values
    ensures ok <==> RestoreRecord(old(TargetsOf(prefixDirs)), r).Some? && !Faulty(prefixDirs, r)
    ensures ok ==> TargetsOf(prefixDirs) == RestoreRecord(old(TargetsOf(prefixDirs)), r).value
  {
    if HasDotDot(r.name) { return false; }
    hide HasDotDot, ReadName, RestoreItem;
    var place := ReadName(r.name);
    if place == None || place.value.top !in prefixDirs { return true; }
    var dir := prefixDirs[place.value.top];
    ok := dir.RestoreEntry(Item(place.value.path, r.isDir, r.data));
  }

  /** The loop of `RunRestore`: it succeeds exactly when every entry can be restored and no copy fails, and then
      the targets hold what the specification says. */
  method RunRestore(records: seq<Record>, prefixDirs: map<string, TargetDir>) returns (ok: bool)
    requires DistinctDirs(prefixDirs)
    modifies prefixDirs.Values
    ensures ok <==> Restore(old(TargetsOf(prefixDirs)), records).Some? &&
                    forall r :: r in records ==> !Faulty(prefixDirs, r)
    ensures ok ==> TargetsOf(prefixDirs) == Restore(old(TargetsOf(prefixDirs)), records).value
  {
    hide RestoreRecord, TargetsOf, DistinctDirs, Faulty;
    ghost var goal := Restore(TargetsOf(prefixDirs), records);
    for i := 0 to |records|
      invariant Restore(TargetsOf(prefixDirs), records[i..]) == goal
      invariant forall r :: r in records[..i] ==> !Faulty(prefixDirs, r)
    {
      assert records[i..][0] == records[i] && records[i..][1..] == records[i + 1..];
      ok := RestoreNext(records[i], prefixDirs);
      if !ok { return; }
    }
    return true;
  }
}
