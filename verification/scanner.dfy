/** `add_dir`: list one directory, split its entries into files and
    subdirectories, count what was found and skipped, and record the result in the
    scan map (main.py:83-119). */
module Scanner {

  import opened FileSystem
  import Paths
  import opened Opt

  /** A directory discovered by a listing and waiting for its own scan. */
  datatype Pending = Pending(path: string, entry: Entry)

  /** What the loop over one listing collects: file paths, subdirectories and the
      number of entries whose type query raised. */
  datatype Listing = Listing(files: seq<string>, dirs: seq<Pending>, faults: nat)

  /** The loop over `os.scandir(dir)` (main.py:98-109), entries in listing order. */
  function List(dir: string, es: seq<Entry>): (l: Listing)
    ensures |l.files| == NumFiles(es)
    ensures |l.dirs| == NumDirs(es)
    ensures l.faults == NumFaulty(es)
  {
    if es == [] then Listing([], [], 0)
    else
      var rest := List(dir, es[1..]);
      match es[0]
      case File(n) => Listing([Paths.Join(dir, n)] + rest.files, rest.dirs, rest.faults)
      case Dir(n, _) => Listing(rest.files, [Pending(Paths.Join(dir, n), es[0])] + rest.dirs, rest.faults)
      case Unreadable(n, _) => Listing(rest.files, [Pending(Paths.Join(dir, n), es[0])] + rest.dirs, rest.faults)
      case Faulty(_) => Listing(rest.files, rest.dirs, rest.faults + 1)
      case Other(_) => rest
  }

  /** The listing keeps every file entry and every directory entry, each under its
      joined path, and nothing else. */
  lemma {:induction false} ListMembers(dir: string, es: seq<Entry>)
    ensures forall e :: e in es && e.File? ==> Paths.Join(dir, e.name) in List(dir, es).files
    ensures forall x :: x in List(dir, es).files ==> exists e :: e in es && e.File? && x == Paths.Join(dir, e.name)
    ensures forall e :: e in es && IsDirEntry(e) ==> Pending(Paths.Join(dir, e.name), e) in List(dir, es).dirs
    ensures forall p :: p in List(dir, es).dirs ==> p.entry in es && IsDirEntry(p.entry) && p.path == Paths.Join(dir, p.entry.name)
  {
    if es != [] {
      ListMembers(dir, es[1..]);
      assert forall e :: e in es <==> e == es[0] || e in es[1..];
      forall x | x in List(dir, es).files
        ensures exists e :: e in es && e.File? && x == Paths.Join(dir, e.name)
      {
        if es[0].File? && x == Paths.Join(dir, es[0].name) {
          assert es[0] in es;
        } else {
          FileFromTail(dir, es, x);
        }
      }
    }
  }

  /** A file path of the listing that is not the first entry's comes from a
      later entry. */
  lemma FileFromTail(dir: string, es: seq<Entry>, x: string)
    requires es != [] && x in List(dir, es).files
    requires !(es[0].File? && x == Paths.Join(dir, es[0].name))
    requires forall y :: y in List(dir, es[1..]).files ==> exists e :: e in es[1..] && e.File? && y == Paths.Join(dir, e.name)
    ensures exists e :: e in es && e.File? && x == Paths.Join(dir, e.name)
  {
    var rest := List(dir, es[1..]);
    if es[0].File? {
      assert List(dir, es).files == [Paths.Join(dir, es[0].name)] + rest.files;
    } else {
      assert List(dir, es).files == rest.files;
    }
    assert x in rest.files;
    var e :| e in es[1..] && e.File? && x == Paths.Join(dir, e.name);
    assert e in es;
  }

  /** The paths of a list of pending directories. */
  function PathSet(ds: seq<Pending>): set<string>
  {
    if ds == [] then {} else {ds[0].path} + PathSet(ds[1..])
  }

  lemma {:induction false} PathSetMembers(ds: seq<Pending>)
    ensures forall p :: p in ds ==> p.path in PathSet(ds)
    ensures forall x :: x in PathSet(ds) ==> exists p :: p in ds && p.path == x
  {
    if ds != [] {
      PathSetMembers(ds[1..]);
      assert forall p :: p in ds <==> p == ds[0] || p in ds[1..];
    }
  }

  /** The paths the listing queues are the joined names of the directory
      entries, listable or not. */
  lemma ListDirPaths(dir: string, es: seq<Entry>)
    ensures PathSet(List(dir, es).dirs) == set e | e in es && IsDirEntry(e) :: Paths.Join(dir, e.name)
  {
    var l := List(dir, es);
    ListMembers(dir, es);
    PathSetMembers(l.dirs);
    forall x | x in PathSet(l.dirs)
      ensures x in set e | e in es && IsDirEntry(e) :: Paths.Join(dir, e.name)
    {
      var p :| p in l.dirs && p.path == x;
      assert p.entry in es;
    }
  }

  /** The files the listing collects are the joined names of the file entries. */
  lemma ListFilePaths(dir: string, es: seq<Entry>)
    ensures (set f | f in List(dir, es).files) == set e | e in es && e.File? :: Paths.Join(dir, e.name)
  {
    ListMembers(dir, es);
  }

  /** `tree[d] = []` for every discovered subdirectory, in order (main.py:112-113). */
  function RecordDirs(tree: ScanMap, ds: seq<Pending>): ScanMap
    decreases |ds|
  {
    if ds == [] then tree else RecordDirs(Put(tree, ds[0].path, []), ds[1..])
  }

  /** Recording the subdirectories adds their paths as keys, each with no files,
      leaves every other key alone and adds no file path. */
  lemma {:induction false} RecordDirsSpec(tree: ScanMap, ds: seq<Pending>)
    ensures Keys(RecordDirs(tree, ds)) == Keys(tree) + PathSet(ds)
    ensures Values(RecordDirs(tree, ds)) <= Values(tree)
    ensures forall p :: p in ds ==> Lookup(RecordDirs(tree, ds), p.path) == Some([])
    ensures forall x :: x !in PathSet(ds) ==> Lookup(RecordDirs(tree, ds), x) == Lookup(tree, x)
    decreases |ds|
  {
    if ds != [] {
      var t := Put(tree, ds[0].path, []);
      PutSpec(tree, ds[0].path, []);
      RecordDirsSpec(t, ds[1..]);
      assert forall p :: p in ds <==> p == ds[0] || p in ds[1..];
      assert (set f: string | f in []) == {};
      if ds[0] !in ds[1..] {
        PathSetMembers(ds[1..]);
      }
      forall p | p in ds
        ensures Lookup(RecordDirs(tree, ds), p.path) == Some([])
      {
        if p.path !in PathSet(ds[1..]) {
          assert p == ds[0] || p in ds[1..];
          PathSetMembers(ds[1..]);
        }
      }
    }
  }

  /** The state one call of the scanner leaves behind: the scan map, the counters
      and the subdirectories it found (empty when the listing failed). */
  datatype ScanStep = ScanStep(tree: ScanMap, counters: Counters, subdirs: seq<Pending>)

  /** `add_dir(dir, tree, return_dirs=True)` on the entry found at `dir`. A listing
      that raises counts one skip and changes nothing else; a successful one adds
      a file per file entry, a directory per directory entry and a skip per
      faulty entry, records `dir` with its files and every subdirectory with no
      files, and ignores every other kind of entry. */
  function Scan(dir: string, e: Entry, tree: ScanMap, c: Counters): (r: ScanStep)
    ensures !e.Dir? ==> r == ScanStep(tree, c.(skipped := c.skipped + 1), [])
    ensures e.Dir? ==> r.counters == Counters(c.dirsSearched, c.skipped + NumFaulty(e.entries),
                                              c.filesFound + NumFiles(e.entries), c.dirsFound + NumDirs(e.entries))
    ensures e.Dir? ==> |r.subdirs| == NumDirs(e.entries)
    ensures e.Dir? ==> r.subdirs == List(dir, e.entries).dirs
  {
    if !e.Dir? then ScanStep(tree, c.(skipped := c.skipped + 1), [])
    else
      var l := List(dir, e.entries);
      var c' := Counters(c.dirsSearched, c.skipped + l.faults, c.filesFound + |l.files|, c.dirsFound + |l.dirs|);
      assert c' == Counters(c.dirsSearched, c.skipped + NumFaulty(e.entries),
                                              c.filesFound + NumFiles(e.entries), c.dirsFound + NumDirs(e.entries));
      ScanStep(RecordDirs(Put(tree, dir, l.files), l.dirs), c', l.dirs)
  }

  /** A successful scan records `dir` and every subdirectory as keys, gives `dir`
      its files (unless a subdirectory path coincides with it) and every
      subdirectory an empty list, records no file beyond the listing's, and
      leaves every other key as it was. */
  lemma ScanRecords(dir: string, e: Entry, tree: ScanMap, c: Counters)
    requires e.Dir?
    ensures var r := Scan(dir, e, tree, c);
            Keys(r.tree) == Keys(tree) + {dir} + PathSet(r.subdirs)
    ensures var r := Scan(dir, e, tree, c);
            Values(r.tree) <= Values(tree) + set f | f in List(dir, e.entries).files
    ensures var r := Scan(dir, e, tree, c);
            dir !in PathSet(r.subdirs) ==> Lookup(r.tree, dir) == Some(List(dir, e.entries).files)
    ensures var r := Scan(dir, e, tree, c);
            forall p :: p in r.subdirs ==> Lookup(r.tree, p.path) == Some([])
    ensures var r := Scan(dir, e, tree, c);
            forall x :: x != dir && x !in PathSet(r.subdirs) ==> Lookup(r.tree, x) == Lookup(tree, x)
  {
    var l := List(dir, e.entries);
    PutSpec(tree, dir, l.files);
    RecordDirsSpec(Put(tree, dir, l.files), l.dirs);
  }

  /** The two shapes `add_dir` can return: the map alone, or the pair of the map and
      the discovered subdirectories. */
  datatype AddDirResult = MapOnly(tree: ScanMap) | MapAndDirs(tree: ScanMap, dirs: seq<Pending>)

  /** `add_dir` as written, for either value of `return_dirs`. The failure return
      on line 93 parses as `return (tree, ([] if return_dirs else []))`, so a
      listing that raises yields the pair even when only the map was asked for. */
  function AddDirAsWritten(dir: string, e: Entry, tree: ScanMap, c: Counters, returnDirs: bool): (r: (AddDirResult, Counters))
    ensures r.1 == Scan(dir, e, tree, c).counters
    ensures r.0.tree == Scan(dir, e, tree, c).tree
    ensures r.0.MapAndDirs? <==> returnDirs || !e.Dir?
  {
    var s := Scan(dir, e, tree, c);
    if !e.Dir? then (MapAndDirs(s.tree, []), s.counters)
    else if returnDirs then (MapAndDirs(s.tree, s.subdirs), s.counters)
    else (MapOnly(s.tree), s.counters)
  }

  /** `add_dir` as evidently intended: the map alone whenever `return_dirs` is false. */
  function AddDir(dir: string, e: Entry, tree: ScanMap, c: Counters, returnDirs: bool): (r: (AddDirResult, Counters))
    ensures r.0.MapAndDirs? <==> returnDirs
    ensures r.0.tree == Scan(dir, e, tree, c).tree
    ensures r.1 == Scan(dir, e, tree, c).counters
    ensures returnDirs ==> r.0.dirs == Scan(dir, e, tree, c).subdirs
  {
    var s := Scan(dir, e, tree, c);
    if returnDirs then (MapAndDirs(s.tree, s.subdirs), s.counters) else (MapOnly(s.tree), s.counters)
  }
}
