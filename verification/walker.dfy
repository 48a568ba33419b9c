/** The two drivers of the scanner: `add_all_dirs`, a layer-by-layer breadth-first
    walk (main.py:121-136), and the non-recursive branch, one scan plus one
    searched directory (main.py:138-142). Their results are compared with
    depth-first reference definitions over the directory tree. */
module Walker {

  import opened FileSystem
  import opened Scanner
  import Paths
  import opened Opt

  // ---------------------------------------------------------------------------
  // Termination measure: how many entries a queue can still reach by listing.

  function Size(e: Entry): nat
    decreases e, 1
  {
    if e.Dir? then 1 + SizeAll(e.entries) else 1
  }

  function SizeAll(es: seq<Entry>): nat
    decreases es, 0
  {
    if es == [] then 0 else Size(es[0]) + SizeAll(es[1..])
  }

  function QueueSize(q: seq<Pending>): nat
  {
    if q == [] then 0 else Size(q[0].entry) + QueueSize(q[1..])
  }

  lemma {:induction false} QueueSizeAppend(a: seq<Pending>, b: seq<Pending>)
    ensures QueueSize(a + b) == QueueSize(a) + QueueSize(b)
  {
    if a != [] {
      assert (a + b)[0] == a[0];
      assert (a + b)[1..] == a[1..] + b;
      QueueSizeAppend(a[1..], b);
    } else {
      assert a + b == b;
    }
  }

  /** The subdirectories a listing finds hold no more than the listing's entries. */
  lemma {:induction false} ListShrinks(dir: string, es: seq<Entry>)
    ensures QueueSize(List(dir, es).dirs) <= SizeAll(es)
  {
    if es != [] {
      ListShrinks(dir, es[1..]);
      var rest := List(dir, es[1..]);
      if IsDirEntry(es[0]) {
        assert List(dir, es).dirs == [Pending(Paths.Join(dir, es[0].name), es[0])] + rest.dirs;
        assert List(dir, es).dirs[1..] == rest.dirs;
      }
    }
  }

  lemma ScanShrinks(dir: string, e: Entry, tree: ScanMap, c: Counters)
    ensures QueueSize(Scan(dir, e, tree, c).subdirs) < Size(e)
  {
    if e.Dir? {
      ListShrinks(dir, e.entries);
    }
  }

  // ---------------------------------------------------------------------------
  // The breadth-first walk.

  /** One pass of the `for dir in dirs` loop (main.py:128-133): scan every queued
      directory in order, collecting all their subdirectories for the next layer. */
  function Layer(q: seq<Pending>, tree: ScanMap, c: Counters): (r: ScanStep)
    ensures QueueSize(r.subdirs) + |q| <= QueueSize(q)
    ensures r.counters.dirsSearched == c.dirsSearched
    decreases |q|
  {
    if q == [] then ScanStep(tree, c, [])
    else
      var s := Scan(q[0].path, q[0].entry, tree, c);
      var rest := Layer(q[1..], s.tree, s.counters);
      ScanShrinks(q[0].path, q[0].entry, tree, c);
      QueueSizeAppend(s.subdirs, rest.subdirs);
      ScanStep(rest.tree, rest.counters, s.subdirs + rest.subdirs)
  }

  /** The `while dirs` loop (main.py:127-135): scan layer after layer until a
      layer discovers nothing; `processed` counts the directories handed to the
      scanner and finally overwrites `dirs_searched`. */
  function Walk(q: seq<Pending>, tree: ScanMap, c: Counters, processed: nat): (r: (ScanMap, Counters))
    decreases QueueSize(q)
  {
    if q == [] then (tree, c.(dirsSearched := processed))
    else
      var l := Layer(q, tree, c);
      Walk(l.subdirs, l.tree, l.counters, processed + |q|)
  }

  /** `add_all_dirs(start_dir)` on the entry found at `start`, starting from the
      counters `c` and an empty scan map. */
  function WalkAll(start: string, root: Entry, c: Counters): (r: (ScanMap, Counters))
  {
    Walk([Pending(start, root)], [], c, 0)
  }

  lemma RecordDirsUniqueKeys(tree: ScanMap, ds: seq<Pending>)
    requires UniqueKeys(tree)
    ensures UniqueKeys(RecordDirs(tree, ds))
    decreases |ds|
  {
    if ds != [] {
      PutKeepsUniqueKeys(tree, ds[0].path, []);
      RecordDirsUniqueKeys(Put(tree, ds[0].path, []), ds[1..]);
    }
  }

  lemma ScanUniqueKeys(dir: string, e: Entry, tree: ScanMap, c: Counters)
    ensures UniqueKeys(tree) ==> UniqueKeys(Scan(dir, e, tree, c).tree)
  {
    if UniqueKeys(tree) && e.Dir? {
      var l := List(dir, e.entries);
      PutKeepsUniqueKeys(tree, dir, l.files);
      RecordDirsUniqueKeys(Put(tree, dir, l.files), l.dirs);
    }
  }

  lemma {:induction false} LayerUniqueKeys(q: seq<Pending>, tree: ScanMap, c: Counters)
    requires UniqueKeys(tree)
    ensures UniqueKeys(Layer(q, tree, c).tree)
    decreases |q|
  {
    if q != [] {
      var s := Scan(q[0].path, q[0].entry, tree, c);
      ScanUniqueKeys(q[0].path, q[0].entry, tree, c);
      LayerUniqueKeys(q[1..], s.tree, s.counters);
    }
  }

  lemma {:induction false} WalkUniqueKeys(q: seq<Pending>, tree: ScanMap, c: Counters, processed: nat)
    requires UniqueKeys(tree)
    ensures UniqueKeys(Walk(q, tree, c, processed).0)
    decreases QueueSize(q)
  {
    if q != [] {
      var l := Layer(q, tree, c);
      LayerUniqueKeys(q, tree, c);
      WalkUniqueKeys(l.subdirs, l.tree, l.counters, processed + |q|);
    }
  }

  /** The scan map a walk builds is a dictionary: no directory is recorded twice,
      however many times it is reached. */
  lemma WalkAllUniqueKeys(start: string, root: Entry, c: Counters)
    ensures UniqueKeys(WalkAll(start, root, c).0)
  {
    WalkUniqueKeys([Pending(start, root)], [], c, 0);
  }

  // ---------------------------------------------------------------------------
  // Depth-first reference: what a walk of the tree below an entry must count.

  /** What one entry of a successful listing adds to the counters by itself: a
      file entry one found file, a faulty entry one skip, a directory entry one
      found directory plus the scan it is queued for, which for an unreadable
      directory also counts one skip. */
  function Own(e: Entry): Counters
  {
    match e
    case File(_) => Counters(0, 0, 1, 0)
    case Faulty(_) => Counters(0, 1, 0, 0)
    case Other(_) => Zero
    case Unreadable(_, _) => Counters(1, 1, 0, 1)
    case Dir(_, _) => Counters(1, 0, 0, 1)
  }

  /** One counter's total over a listing's entries and everything reachable below
      its listable directories. */
  function SubCount(f: Field, es: seq<Entry>): nat
    decreases es
  {
    if es == [] then 0
    else if es[0].Dir? then Get(Own(es[0]), f) + SubCount(f, es[0].entries) + SubCount(f, es[1..])
    else Get(Own(es[0]), f) + SubCount(f, es[1..])
  }

  /** One counter's total for a walk started at `e`: the scan of `e` itself (one
      searched directory, and one skip if it cannot be listed) and, when it can be
      listed, everything below it. */
  function Count(f: Field, e: Entry): nat
  {
    if e.Dir? then Get(Counters(1, 0, 0, 0), f) + SubCount(f, e.entries)
    else Get(Counters(1, 1, 0, 0), f)
  }

  /** The four totals of a walk started at `e`. Nothing below an unreadable
      directory is counted. */
  function Tally(e: Entry): Counters
  {
    Counters(Count(DirsSearched, e), Count(Skipped, e), Count(FilesFound, e), Count(DirsFound, e))
  }

  function QueueCount(f: Field, q: seq<Pending>): nat
  {
    if q == [] then 0 else Count(f, q[0].entry) + QueueCount(f, q[1..])
  }

  lemma {:induction false} QueueCountAppend(f: Field, a: seq<Pending>, b: seq<Pending>)
    ensures QueueCount(f, a + b) == QueueCount(f, a) + QueueCount(f, b)
  {
    if a != [] {
      assert (a + b)[0] == a[0];
      assert (a + b)[1..] == a[1..] + b;
      QueueCountAppend(f, a[1..], b);
    } else {
      assert a + b == b;
    }
  }

  /** A listing's own counts plus the totals of the directories it queues make up
      the reference total of its entries. */
  lemma {:induction false} ListCount(f: Field, dir: string, es: seq<Entry>)
    ensures SubCount(f, es) == Get(Counters(0, NumFaulty(es), NumFiles(es), NumDirs(es)), f) + QueueCount(f, List(dir, es).dirs)
  {
    if es != [] {
      ListCount(f, dir, es[1..]);
      var rest := List(dir, es[1..]);
      if IsDirEntry(es[0]) {
        assert List(dir, es).dirs == [Pending(Paths.Join(dir, es[0].name), es[0])] + rest.dirs;
        assert List(dir, es).dirs[1..] == rest.dirs;
      }
    }
  }

  /** One scan moves the total of the scanned entry into the counters, except for
      the searched directory itself, and leaves the totals of the subdirectories
      it found outstanding. */
  lemma ScanCount(f: Field, dir: string, e: Entry, tree: ScanMap, c: Counters)
    ensures var s := Scan(dir, e, tree, c);
            Get(c, f) + Count(f, e) == Get(s.counters, f) + QueueCount(f, s.subdirs) + Get(Counters(1, 0, 0, 0), f)
  {
    if e.Dir? {
      ListCount(f, dir, e.entries);
    }
  }

  /** A layer moves the totals of its queue into the counters, one searched
      directory per queued item, leaving the totals of the next layer outstanding. */
  lemma {:induction false} LayerCount(f: Field, q: seq<Pending>, tree: ScanMap, c: Counters)
    ensures var r := Layer(q, tree, c);
            Get(c, f) + QueueCount(f, q) == Get(r.counters, f) + QueueCount(f, r.subdirs) + Get(Counters(|q|, 0, 0, 0), f)
    decreases |q|
  {
    if q != [] {
      var s := Scan(q[0].path, q[0].entry, tree, c);
      var rest := Layer(q[1..], s.tree, s.counters);
      LayerCount(f, q[1..], s.tree, s.counters);
      ScanCount(f, q[0].path, q[0].entry, tree, c);
      QueueCountAppend(f, s.subdirs, rest.subdirs);
      assert Layer(q, tree, c) == ScanStep(rest.tree, rest.counters, s.subdirs + rest.subdirs);
    }
  }

  /** The walk ends with every outstanding total moved into the counters; the
      searched-directory counter is then overwritten by the number processed. */
  lemma {:induction false} WalkCount(f: Field, q: seq<Pending>, tree: ScanMap, c: Counters, processed: nat)
    ensures Get(Walk(q, tree, c, processed).1, f)
              == if f == DirsSearched then processed + QueueCount(f, q) else Get(c, f) + QueueCount(f, q)
    decreases QueueSize(q)
  {
    if q != [] {
      var l := Layer(q, tree, c);
      var w := Walk(l.subdirs, l.tree, l.counters, processed + |q|);
      assert Walk(q, tree, c, processed) == w;
      assert Get(c, f) + QueueCount(f, q) == Get(l.counters, f) + QueueCount(f, l.subdirs) + Get(Counters(|q|, 0, 0, 0), f) by {
        LayerCount(f, q, tree, c);
      }
      assert Get(w.1, f) == if f == DirsSearched then processed + |q| + QueueCount(f, l.subdirs)
                            else Get(l.counters, f) + QueueCount(f, l.subdirs) by {
        WalkCount(f, l.subdirs, l.tree, l.counters, processed + |q|);
      }
    }
  }

  /** The breadth-first walk counts exactly what the depth-first reference
      counts: `dirs_searched` becomes the number of directories handed to the
      scanner (failed ones included) and the other three grow by the number of
      skips, found files and found directories in the part of the tree reachable
      through listable directories. The order of the walk does not matter. */
  lemma WalkAllCounts(start: string, root: Entry, c: Counters)
    ensures var t := Tally(root);
            WalkAll(start, root, c).1
              == Counters(t.dirsSearched, c.skipped + t.skipped, c.filesFound + t.filesFound, c.dirsFound + t.dirsFound)
  {
    var q := [Pending(start, root)];
    WalkCount(DirsSearched, q, [], c, 0);
    WalkCount(Skipped, q, [], c, 0);
    WalkCount(FilesFound, q, [], c, 0);
    WalkCount(DirsFound, q, [], c, 0);
  }

  // ---------------------------------------------------------------------------
  // Depth-first reference: which directories become keys, which files values.

  /** The directory paths recorded below a listing of `p` holding `es`: every
      directory entry, listable or not, and what lies below the listable ones. */
  function SubDirPaths(p: string, es: seq<Entry>): set<string>
    decreases es
  {
    if es == [] then {}
    else if es[0].Dir? then
      var q := Paths.Join(p, es[0].name);
      {q} + SubDirPaths(q, es[0].entries) + SubDirPaths(p, es[1..])
    else if es[0].Unreadable? then {Paths.Join(p, es[0].name)} + SubDirPaths(p, es[1..])
    else SubDirPaths(p, es[1..])
  }

  /** The directory paths a walk from `e` at `p` records: `p` itself when it can be
      listed, every directory entry found in a listing, and what lies below those
      that can be listed in turn. Nothing below an unreadable directory. */
  function DirPaths(p: string, e: Entry): set<string>
  {
    if e.Dir? then {p} + SubDirPaths(p, e.entries) else {}
  }

  /** The file paths found in a listing of `p` holding `es` and in every listable
      directory below it. */
  function SubFilePaths(p: string, es: seq<Entry>): set<string>
    decreases es
  {
    if es == [] then {}
    else if es[0].File? then {Paths.Join(p, es[0].name)} + SubFilePaths(p, es[1..])
    else if es[0].Dir? then SubFilePaths(Paths.Join(p, es[0].name), es[0].entries) + SubFilePaths(p, es[1..])
    else SubFilePaths(p, es[1..])
  }

  /** The file paths found by listing `e` and every listable directory below it. */
  function FilePaths(p: string, e: Entry): set<string>
  {
    if e.Dir? then SubFilePaths(p, e.entries) else {}
  }

  function QueueDirPaths(q: seq<Pending>): set<string>
  {
    if q == [] then {} else DirPaths(q[0].path, q[0].entry) + QueueDirPaths(q[1..])
  }

  function QueueFilePaths(q: seq<Pending>): set<string>
  {
    if q == [] then {} else FilePaths(q[0].path, q[0].entry) + QueueFilePaths(q[1..])
  }

  lemma {:induction false} QueuePathsAppend(a: seq<Pending>, b: seq<Pending>)
    ensures QueueDirPaths(a + b) == QueueDirPaths(a) + QueueDirPaths(b)
    ensures QueueFilePaths(a + b) == QueueFilePaths(a) + QueueFilePaths(b)
  {
    if a != [] {
      assert (a + b)[0] == a[0];
      assert (a + b)[1..] == a[1..] + b;
      QueuePathsAppend(a[1..], b);
    } else {
      assert a + b == b;
    }
  }

  lemma {:induction false} ListPaths(dir: string, es: seq<Entry>)
    ensures var l := List(dir, es);
            PathSet(l.dirs) + QueueDirPaths(l.dirs) == SubDirPaths(dir, es)
    ensures var l := List(dir, es);
            (set f | f in l.files) + QueueFilePaths(l.dirs) == SubFilePaths(dir, es)
  {
    if es != [] {
      ListPaths(dir, es[1..]);
      var rest := List(dir, es[1..]);
      var l := List(dir, es);
      if IsDirEntry(es[0]) {
        assert l.dirs == [Pending(Paths.Join(dir, es[0].name), es[0])] + rest.dirs;
        assert l.dirs[1..] == rest.dirs;
        assert l.files == rest.files;
      } else if es[0].File? {
        assert l.files == [Paths.Join(dir, es[0].name)] + rest.files;
        assert (set f | f in l.files) == {Paths.Join(dir, es[0].name)} + (set f | f in rest.files);
      }
    }
  }

  /** One scan moves the scanned directory's share of the reference paths into
      the map, leaving the shares of the subdirectories it found outstanding. */
  lemma ScanPaths(dir: string, e: Entry, tree: ScanMap, c: Counters)
    ensures var s := Scan(dir, e, tree, c);
            Keys(s.tree) + QueueDirPaths(s.subdirs) == Keys(tree) + DirPaths(dir, e)
    ensures var s := Scan(dir, e, tree, c);
            Values(s.tree) + QueueFilePaths(s.subdirs) <= Values(tree) + FilePaths(dir, e)
  {
    if e.Dir? {
      ScanRecords(dir, e, tree, c);
      ListPaths(dir, e.entries);
    }
  }

  lemma {:induction false} LayerPaths(q: seq<Pending>, tree: ScanMap, c: Counters)
    ensures var r := Layer(q, tree, c);
            Keys(r.tree) + QueueDirPaths(r.subdirs) == Keys(tree) + QueueDirPaths(q)
    ensures var r := Layer(q, tree, c);
            Values(r.tree) + QueueFilePaths(r.subdirs) <= Values(tree) + QueueFilePaths(q)
    decreases |q|
  {
    if q != [] {
      var s := Scan(q[0].path, q[0].entry, tree, c);
      var rest := Layer(q[1..], s.tree, s.counters);
      assert Layer(q, tree, c) == ScanStep(rest.tree, rest.counters, s.subdirs + rest.subdirs);
      assert QueueDirPaths(s.subdirs + rest.subdirs) == QueueDirPaths(s.subdirs) + QueueDirPaths(rest.subdirs)
          && QueueFilePaths(s.subdirs + rest.subdirs) == QueueFilePaths(s.subdirs) + QueueFilePaths(rest.subdirs) by {
        QueuePathsAppend(s.subdirs, rest.subdirs);
      }
      assert Keys(rest.tree) + QueueDirPaths(rest.subdirs) == Keys(s.tree) + QueueDirPaths(q[1..])
          && Values(rest.tree) + QueueFilePaths(rest.subdirs) <= Values(s.tree) + QueueFilePaths(q[1..]) by {
        LayerPaths(q[1..], s.tree, s.counters);
      }
      assert Keys(s.tree) + QueueDirPaths(s.subdirs) == Keys(tree) + DirPaths(q[0].path, q[0].entry)
          && Values(s.tree) + QueueFilePaths(s.subdirs) <= Values(tree) + FilePaths(q[0].path, q[0].entry) by {
        ScanPaths(q[0].path, q[0].entry, tree, c);
      }
    }
  }

  lemma {:induction false} WalkKeys(q: seq<Pending>, tree: ScanMap, c: Counters, processed: nat)
    ensures Keys(Walk(q, tree, c, processed).0) == Keys(tree) + QueueDirPaths(q)
    decreases QueueSize(q)
  {
    if q != [] {
      var l := Layer(q, tree, c);
      var w := Walk(l.subdirs, l.tree, l.counters, processed + |q|);
      assert Walk(q, tree, c, processed) == w;
      assert Keys(w.0) == Keys(l.tree) + QueueDirPaths(l.subdirs) by {
        WalkKeys(l.subdirs, l.tree, l.counters, processed + |q|);
      }
      assert Keys(l.tree) + QueueDirPaths(l.subdirs) == Keys(tree) + QueueDirPaths(q) by {
        LayerPaths(q, tree, c);
      }
    }
  }

  lemma {:induction false} WalkValues(q: seq<Pending>, tree: ScanMap, c: Counters, processed: nat)
    ensures Values(Walk(q, tree, c, processed).0) <= Values(tree) + QueueFilePaths(q)
    decreases QueueSize(q)
  {
    if q != [] {
      var l := Layer(q, tree, c);
      var w := Walk(l.subdirs, l.tree, l.counters, processed + |q|);
      assert Walk(q, tree, c, processed) == w;
      assert Values(w.0) <= Values(l.tree) + QueueFilePaths(l.subdirs) by {
        WalkValues(l.subdirs, l.tree, l.counters, processed + |q|);
      }
      assert Values(l.tree) + QueueFilePaths(l.subdirs) <= Values(tree) + QueueFilePaths(q) by {
        LayerPaths(q, tree, c);
      }
    }
  }

  /** The recursive walk records as keys exactly the directories the depth-first
      reference reaches: the start directory if it can be listed, and every
      directory entry found below it through listable directories; the contents
      of an unreadable directory never appear. Every recorded file is a file
      entry of a listed directory. */
  lemma WalkAllPaths(start: string, root: Entry, c: Counters)
    ensures Keys(WalkAll(start, root, c).0) == DirPaths(start, root)
    ensures Values(WalkAll(start, root, c).0) <= FilePaths(start, root)
  {
    WalkKeys([Pending(start, root)], [], c, 0);
    WalkValues([Pending(start, root)], [], c, 0);
  }

  // ---------------------------------------------------------------------------
  // The non-recursive branch.

  /** How a non-recursive run ends: with the scan map `dict_to_list` can flatten,
      or with the crash of `dict_to_list` on the pair that `add_dir` returned. */
  datatype WalkOutcome = Listed(tree: ScanMap, counters: Counters) | Crashed(counters: Counters)

  /** Lines 140-142 as written followed by the `tree.items()` of line 147: one
      scan, one more searched directory, and a crash when the scan returned the
      pair instead of the map. */
  function WalkOneAsWritten(start: string, root: Entry, c: Counters): (r: WalkOutcome)
    ensures r.Crashed? <==> !root.Dir?
    ensures r.counters.dirsSearched == c.dirsSearched + 1
  {
    var (res, c1) := AddDirAsWritten(start, root, [], c, false);
    var c2 := c1.(dirsSearched := c1.dirsSearched + 1);
    match res
    case MapOnly(t) => Listed(t, c2)
    case MapAndDirs(_, _) => Crashed(c2)
  }

  /** The non-recursive branch with `add_dir` returning the map alone. */
  function WalkOne(start: string, root: Entry, c: Counters): (r: (ScanMap, Counters))
    ensures r.1.dirsSearched == c.dirsSearched + 1
    ensures !root.Dir? ==> r == ([], c.(dirsSearched := c.dirsSearched + 1, skipped := c.skipped + 1))
    ensures root.Dir? ==> r.1 == Counters(c.dirsSearched + 1, c.skipped + NumFaulty(root.entries),
                                          c.filesFound + NumFiles(root.entries), c.dirsFound + NumDirs(root.entries))
  {
    var (res, c1) := AddDir(start, root, [], c, false);
    (res.tree, c1.(dirsSearched := c1.dirsSearched + 1))
  }

  /** A non-recursive run lists only the start directory: the keys are the start
      directory and its direct subdirectories, listable or not. */
  lemma WalkOneKeys(start: string, root: Entry, c: Counters)
    requires root.Dir?
    ensures Keys(WalkOne(start, root, c).0) == {start} + set e | e in root.entries && IsDirEntry(e) :: Paths.Join(start, e.name)
  {
    var l := List(start, root.entries);
    var s := Scan(start, root, [], c);
    assert WalkOne(start, root, c).0 == s.tree;
    assert Keys(s.tree) == {start} + PathSet(l.dirs) by {
      ScanRecords(start, root, [], c);
    }
    ListDirPaths(start, root.entries);
  }

  /** The subdirectories are never listed: unless one of them has the start
      directory's own path, the only files recorded are the start directory's. */
  lemma WalkOneValues(start: string, root: Entry, c: Counters)
    requires root.Dir?
    requires forall e :: e in root.entries && IsDirEntry(e) ==> Paths.Join(start, e.name) != start
    ensures Values(WalkOne(start, root, c).0) == set e | e in root.entries && e.File? :: Paths.Join(start, e.name)
  {
    var l := List(start, root.entries);
    var s := Scan(start, root, [], c);
    assert WalkOne(start, root, c).0 == s.tree;
    var t1 := Put([], start, l.files);
    assert s.tree == RecordDirs(t1, l.dirs);
    assert t1 == [(start, l.files)];
    assert Values(t1) == set f | f in l.files;
    ListMembers(start, root.entries);
    forall p | p in l.dirs ensures Lookup(t1, p.path).None? || Lookup(t1, p.path) == Some([]) {
      assert p.path != start;
    }
    RecordDirsValues(t1, l.dirs);
    ListFilePaths(start, root.entries);
  }

  /** Giving a key with no files, or a new key, an empty file list removes no file. */
  lemma {:induction false} PutEmptyValues(m: ScanMap, k: string)
    requires Lookup(m, k).None? || Lookup(m, k) == Some([])
    ensures Values(Put(m, k, [])) == Values(m)
  {
    if m != [] && m[0].0 != k {
      PutEmptyValues(m[1..], k);
      assert Put(m, k, [])[1..] == Put(m[1..], k, []);
    } else if m != [] {
      assert Put(m, k, [])[1..] == m[1..];
    }
  }

  /** Recording subdirectories with empty file lists removes no file, as long as
      none of them already holds files. */
  lemma {:induction false} RecordDirsValues(tree: ScanMap, ds: seq<Pending>)
    requires forall p :: p in ds ==> Lookup(tree, p.path).None? || Lookup(tree, p.path) == Some([])
    ensures Values(RecordDirs(tree, ds)) == Values(tree)
    decreases |ds|
  {
    if ds != [] {
      PutEmptyValues(tree, ds[0].path);
      PutSpec(tree, ds[0].path, []);
      var t := Put(tree, ds[0].path, []);
      assert forall p :: p in ds[1..] ==> p in ds;
      RecordDirsValues(t, ds[1..]);
    }
  }

  /** The slip on line 93 makes the non-recursive branch crash whenever the start
      directory cannot be listed, where the recursive branch simply returns an
      empty map. */
  lemma UnreadableStartCrashesAsWritten(start: string, name: string, hidden: seq<Entry>, c: Counters)
    ensures WalkOneAsWritten(start, Unreadable(name, hidden), c).Crashed?
    ensures WalkAll(start, Unreadable(name, hidden), c).0 == []
    ensures WalkOne(start, Unreadable(name, hidden), c).0 == []
  {
    var q := [Pending(start, Unreadable(name, hidden))];
    var c1 := c.(skipped := c.skipped + 1);
    assert Scan(start, q[0].entry, [], c) == ScanStep([], c1, []);
    assert Layer(q[1..], [], c1) == ScanStep([], c1, []);
    assert Layer(q, [], c) == ScanStep([], c1, []);
    assert Walk([], [], c1, 1).0 == [];
  }

  /** Where the code as written does not crash, the corrected branch computes the
      same map and counters. */
  lemma WalkOneAgreesWhereListed(start: string, root: Entry, c: Counters)
    ensures WalkOneAsWritten(start, root, c).Listed? <==> root.Dir?
    ensures WalkOneAsWritten(start, root, c).Listed? ==>
              WalkOneAsWritten(start, root, c) == Listed(WalkOne(start, root, c).0, WalkOne(start, root, c).1)
  {
  }
}
