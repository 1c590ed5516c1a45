/** What an archive holds and what its entries do, in terms of the trees themselves: which path holds what, how names
    are written and read, and where an entry goes. */
module ArchiveMeaning {
  import opened Wrappers
  import opened GoStrings
  import opened ArchivePaths
  import opened BackupArchive

  // ---------------------------------------------------------------------------
  // What a path holds
  // ---------------------------------------------------------------------------

  /** What is at a path below a directory, found by going down one name at a time. */
  function Find(n: Node, p: Path): Option<Node>
    decreases n, 1
  {
    if p == [] then Some(n)
    else match n
      case Dir(children) => FindIn(children, p)
      case _ => None
  }

  function FindIn(cs: seq<Child>, p: Path): Option<Node>
    requires p != []
    decreases cs, 0
  {
    if cs == [] then None
    else if cs[0].name == p[0] then Find(cs[0].node, p[1..])
    else FindIn(cs[1..], p)
  }

  /** The item for what is found, if it is archived at all. */
  predicate IsItem(item: Item, path: Path, p: Path, found: Option<Node>) {
    && item.path == path + p && found.Some? && !found.value.Special?
    && item.isDir == found.value.Dir? && item.data == (if found.value.File? then found.value.data else "")
  }

  ghost predicate ItemAt(item: Item, path: Path, n: Node) {
    path <= item.path && IsItem(item, path, item.path[|path|..], Find(n, item.path[|path|..]))
  }

  ghost predicate ItemIn(item: Item, path: Path, cs: seq<Child>) {
    && path < item.path
    && IsItem(item, path, item.path[|path|..], FindIn(cs, item.path[|path|..]))
  }

  /** A walk yields an item for exactly what can be found in the tree and is a directory or a file. */
  lemma {:induction false} WalkExactly(path: Path, n: Node, item: Item)
    requires ValidTree(n)
    ensures item in Walk(path, n) <==> ItemAt(item, path, n)
    decreases n, 1
  {
    match n
    case File(data) =>
      OnlyHere(path, n, item);
    case Special =>
      OnlyHere(path, n, item);
    case Dir(children) =>
      WalkChildrenExactly(path, children, item);
      if item.path == path {
        assert item.path[|path|..] == [];
        assert path + [] == path;
      }
  }

  lemma OnlyHere(path: Path, n: Node, item: Item)
    requires !n.Dir?
    ensures ItemAt(item, path, n) <==> item.path == path && n.File? && item == Item(path, false, n.data)
  {
    if path <= item.path && item.path[|path|..] == [] {
      assert item.path == path + item.path[|path|..] == path;
    }
  }

  lemma {:induction false} WalkChildrenExactly(path: Path, cs: seq<Child>, item: Item)
    requires ValidChildren(cs)
    ensures item in WalkChildren(path, cs) <==> ItemIn(item, path, cs)
    decreases cs, 0
  {
    if cs == [] {
      NothingThere(item, path, cs);
    } else {
      WalkExactly(path + [cs[0].name], cs[0].node, item);
      WalkChildrenExactly(path, cs[1..], item);
      FirstOrRest(item, path, cs);
      hide ItemAt, ItemIn;
    }
  }

  lemma NothingThere(item: Item, path: Path, cs: seq<Child>)
    requires cs == []
    ensures !ItemIn(item, path, cs)
  {
  }

  lemma FirstOrRest(item: Item, path: Path, cs: seq<Child>)
    requires cs != [] && ValidChildren(cs)
    ensures ItemIn(item, path, cs) <==>
            ItemAt(item, path + [cs[0].name], cs[0].node) || ItemIn(item, path, cs[1..])
  {
    var c, rest := cs[0], cs[1..];
    Below(path, c.name, item.path);
    if path < item.path {
      var below := item.path[|path|..];
      if item.path[|path|] == c.name {
        NotAmong(rest, below);
        assert path + [c.name] + item.path[|path| + 1..] == item.path;
      }
    }
  }

  lemma Below(path: Path, name: string, p: Path)
    ensures path + [name] <= p <==> path < p && p[|path|] == name
    ensures path < p ==> p[|path|..] == [p[|path|]] + p[|path| + 1..] && path + p[|path|..] == p
  {
    if path < p && p[|path|] == name {
      assert p[..|path| + 1] == path + [name];
    }
  }

  lemma {:induction false} NotAmong(cs: seq<Child>, p: Path)
    requires p != [] && forall i :: 0 <= i < |cs| ==> cs[i].name != p[0]
    ensures FindIn(cs, p) == None
  {
    if cs != [] {
      NotAmong(cs[1..], p);
    }
  }

  /** The image of a tree: the paths at which directories and files can be found, with their bytes. */
  lemma {:induction false} TreeExactly(path: Path, n: Node, p: Path, data: string)
    requires ValidTree(n)
    ensures p in Dirs(path, n) <==> path <= p && Find(n, p[|path|..]).Some? && Find(n, p[|path|..]).value.Dir?
    ensures p in Files(path, n) && Files(path, n)[p] == data <==>
            path <= p && Find(n, p[|path|..]) == Some(File(data))
    decreases n, 1
  {
    if path <= p && p[|path|..] == [] {
      assert p == path + p[|path|..] == path;
    }
    match n
    case File(_) =>
    case Special =>
    case Dir(children) =>
      ChildrenExactly(path, children, p, data);
  }

  lemma {:induction false} ChildrenExactly(path: Path, cs: seq<Child>, p: Path, data: string)
    requires ValidChildren(cs)
    ensures p in DirsOf(path, cs) <==>
            path < p && FindIn(cs, p[|path|..]).Some? && FindIn(cs, p[|path|..]).value.Dir?
    ensures p in FilesOf(path, cs) && FilesOf(path, cs)[p] == data <==>
            path < p && FindIn(cs, p[|path|..]) == Some(File(data))
    decreases cs, 0
  {
    if cs != [] {
      var c, rest := cs[0], cs[1..];
      TreeExactly(path + [c.name], c.node, p, data);
      ChildrenExactly(path, rest, p, data);
      Below(path, c.name, p);
      if p in FilesOf(path, rest) {
        ChildrenExactly(path, rest, p, FilesOf(path, rest)[p]);
      }
      if path < p && p[|path|] == c.name {
        NotAmong(rest, p[|path|..]);
      }
    }
  }

  /** The image that the round trip recreates is the tree: every path below the root holds in it what it holds in
      the tree, special files apart. */
  lemma ImageExactly(n: Node, p: Path, data: string)
    requires ValidTree(n)
    ensures p in Image(Some(n)).dirs <==> Find(n, p).Some? && Find(n, p).value.Dir?
    ensures p in Image(Some(n)).files && Image(Some(n)).files[p] == data <==> Find(n, p) == Some(File(data))
    ensures Image(None) == Fs({}, map[])
  {
    assert p[0..] == p;
    TreeExactly([], n, p, data);
  }

  // ---------------------------------------------------------------------------
  // What the archive holds
  // ---------------------------------------------------------------------------

  /** How names are written: the prefix and the names below it, each followed by a slash but for that of a file. */
  lemma NameMeans(prefix: string, p: Path, x: string)
    ensures ArchiveName(prefix, [], true) == prefix + "/"
    ensures ArchiveName(prefix, p + [x], false) == ArchiveName(prefix, p, true) + x
    ensures ArchiveName(prefix, p + [x], true) == ArchiveName(prefix, p, true) + x + "/"
  {
    assert [prefix] + [] == [prefix];
    assert [prefix] + (p + [x]) == [prefix] + p + [x];
    JoinOneMore([prefix] + p, x);
  }

  lemma {:induction false} JoinOneMore(parts: seq<string>, x: string)
    requires parts != []
    ensures Join(parts + [x], '/') == Join(parts, '/') + "/" + x
  {
    if |parts| == 1 {
      assert (parts + [x])[1..] == [x];
    } else {
      JoinOneMore(parts[1..], x);
      assert (parts + [x])[1..] == parts[1..] + [x];
      assert parts[0] + ['/'] + (Join(parts[1..], '/') + "/" + x) == parts[0] + ['/'] + Join(parts[1..], '/') + "/" + x;
    }
  }

  /** The record is for something in the source: a directory, or a file with all its bytes. */
  ghost predicate Holds(prefix: string, source: Option<Node>, r: Record) {
    source.Some? && exists p: Path :: IsRecord(prefix, p, Find(source.value, p), r)
  }

  predicate IsRecord(prefix: string, p: Path, found: Option<Node>, r: Record) {
    && found.Some? && !found.value.Special?
    && r == Record(ArchiveName(prefix, p, found.value.Dir?), found.value.Dir?,
                   if found.value.File? then found.value.data else "")
  }

  lemma {:induction false} InRecords(prefix: string, items: seq<Item>, r: Record)
    ensures r in ToRecords(prefix, items) <==>
            exists item ::
              item in items && r == Record(ArchiveName(prefix, item.path, item.isDir), item.isDir, item.data)
  {
    hide ArchiveName;
    if items != [] {
      InRecords(prefix, items[1..], r);
      assert items == [items[0]] + items[1..];
    }
  }

  lemma SourceHolds(prefix: string, n: Node, r: Record)
    requires ValidTree(n)
    ensures r in ToRecords(prefix, Walk([], n)) <==> Holds(prefix, Some(n), r)
  {
    hide ArchiveName, Walk, ToRecords, Find, ValidTree;
    var items := Walk([], n);
    InRecords(prefix, items, r);
    forall item
      ensures item in items <==> IsItem(item, [], item.path, Find(n, item.path))
    {
      WalkExactly([], n, item);
      assert item.path[0..] == item.path;
    }
    if Holds(prefix, Some(n), r) {
      var p: Path :| IsRecord(prefix, p, Find(n, p), r);
      var item := Item(p, r.isDir, r.data);
      assert [] + p == p;
      assert item in items;
    }
    forall item | item in items && r == Record(ArchiveName(prefix, item.path, item.isDir), item.isDir, item.data)
      ensures Holds(prefix, Some(n), r)
    {
      assert IsRecord(prefix, item.path, Find(n, item.path), r);
    }
  }

  /** The archive holds exactly the directories and files of its sources, below "config" and "data". */
  lemma ArchiveHolds(config: Option<Node>, data: Option<Node>, configFirst: bool, r: Record)
    requires ValidSource(config) && ValidSource(data)
    ensures r in Archive(config, data, configFirst) <==> Holds("config", config, r) || Holds("data", data, r)
  {
    hide Holds, ToRecords, Walk;
    if config.Some? {
      SourceHolds("config", config.value, r);
    }
    if data.Some? {
      SourceHolds("data", data.value, r);
    }
    assert config.None? ==> !Holds("config", config, r) by { NoSource("config", r); }
    assert data.None? ==> !Holds("data", data, r) by { NoSource("data", r); }
  }

  lemma NoSource(prefix: string, r: Record)
    ensures !Holds(prefix, None, r)
  {
  }

  // ---------------------------------------------------------------------------
  // What an entry does
  // ---------------------------------------------------------------------------

  /** Cleaning a path drops its empty and "." components and nothing else: it works on parts of a path one by one. */
  lemma {:induction false} CleanExactly(a: seq<string>, b: seq<string>, x: string)
    ensures Clean(a + b) == Clean(a) + Clean(b)
    ensures Clean([x]) == if x == "" || x == "." then [] else [x]
  {
    CleanFirst(x, []);
    assert [x] + [] == [x];
    hide Clean;
    if a == [] {
      assert a + b == b;
    } else {
      var rest := a[1..];
      var first := if a[0] == "" || a[0] == "." then [] else [a[0]];
      CleanExactly(rest, b, x);
      assert a == [a[0]] + rest && a + b == [a[0]] + (rest + b);
      CleanFirst(a[0], rest);
      CleanFirst(a[0], rest + b);
      assert first + (Clean(rest) + Clean(b)) == first + Clean(rest) + Clean(b);
    }
  }

  lemma CleanFirst(first: string, rest: seq<string>)
    ensures Clean([first] + rest) == (if first == "" || first == "." then [] else [first]) + Clean(rest)
    ensures Clean([]) == []
  {
    assert ([first] + rest)[1..] == rest;
  }

  lemma DotDotExactly(s: string)
    ensures HasDotDot(s) <==> exists a, b :: s == a + ".." + b
  {
    if i :| 0 <= i < |s| - 1 && s[i] == '.' && s[i + 1] == '.' {
      assert s == s[..i] + ".." + s[i + 2..];
    }
    if a, b :| s == a + ".." + b {
      assert s[|a|] == '.' && s[|a| + 1] == '.';
    }
  }

  /** Files come back with their first 2^30 bytes. */
  lemma CutExactly(data: string)
    ensures Cut(data) <= data && |Cut(data)| == if |data| <= 1_073_741_824 then |data| else 1_073_741_824
  {
  }

  /** Where an entry goes, whoever wrote the archive: nowhere if its name has no slash or does not begin with one of the
      two prefixes or that target is not configured; otherwise to its cleaned path below the target; and a
      name with two dots is refused. */
  lemma EntryMeans(t: Targets, top: string, parts: seq<string>, isDir: bool, data: string)
    requires '/' !in top && parts != [] && forall i :: 0 <= i < |parts| ==> '/' !in parts[i]
    ensures var r := RestoreRecord(t, Record(top + ['/'] + Join(parts, '/'), isDir, data));
            var item := Item(Clean(parts), isDir, data);
            if HasDotDot(top) || exists i :: 0 <= i < |parts| && HasDotDot(parts[i]) then r == None
            else if top == "config" && t.config.Some? then
              var fs := RestoreItem(t.config.value, item);
              r == if fs.Some? then Some(Targets(fs, t.data)) else None
            else if top == "data" && t.data.Some? then
              var fs := RestoreItem(t.data.value, item);
              r == if fs.Some? then Some(Targets(t.config, fs)) else None
            else r == Some(t)
    ensures RestoreRecord(t, Record(top, isDir, data)) == if HasDotDot(top) then None else Some(t)
  {
    hide HasDotDot, RestoreItem, ReadName;
    ReadsPlace(top, parts);
    DotDotAcrossSlash(top, Join(parts, '/'));
    DotDotInJoin(parts);
    hide Clean, Join;
  }

  lemma ReadsPlace(top: string, parts: seq<string>)
    requires '/' !in top && parts != [] && forall i :: 0 <= i < |parts| ==> '/' !in parts[i]
    ensures ReadName(top + ['/'] + Join(parts, '/')) == Some(Place(top, Clean(parts)))
    ensures ReadName(top) == None
  {
    var rest := Join(parts, '/');
    var name := top + ['/'] + rest;
    IndexOfExact(top, '/', rest);
    SplitJoin(parts, '/');
    assert name[..|top|] == top && name[|top| + 1..] == rest;
  }

  /** What an entry does below its target. A directory is made with all its parents, unless one of them is a file; a
      file needs the same of its parent, must not be a directory, and replaces what was there. */
  lemma ItemMeans(fs: Fs, item: Item)
    ensures item.isDir ==>
              RestoreItem(fs, item) ==
              if exists q :: q in fs.files && q <= item.path then None
              else Some(Fs(fs.dirs + (set i | 0 <= i <= |item.path| :: item.path[..i]), fs.files))
    ensures !item.isDir ==>
              RestoreItem(fs, item) ==
              if item.path == [] || item.path in fs.dirs || exists q :: q in fs.files && q < item.path then None
              else Some(Fs(fs.dirs + (set i | 0 <= i < |item.path| :: item.path[..i]),
                           fs.files[item.path := Cut(item.data)]))
  {
    hide Cut;
    var p := item.path;
    PrefixesAre(p);
    if !item.isDir && p != [] {
      var parent := p[..|p| - 1];
      PrefixesAre(parent);
      assert forall i :: 0 <= i < |p| ==> parent[..i] == p[..i];
      assert Prefixes(parent) == set i | 0 <= i < |p| :: p[..i];
      forall q | q in fs.files
        ensures q <= parent <==> q < p
      {
        if q < p { assert q == p[..|q|] == parent[..|q|]; }
      }
    }
  }

  lemma PrefixesAre(p: Path)
    ensures forall q :: q in Prefixes(p) <==> q <= p
  {
    forall q | q <= p
      ensures q in Prefixes(p)
    {
      assert q == p[..|q|];
    }
  }
}
