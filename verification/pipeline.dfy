/** The program's main flow (main.py:8-23, 138-142, 233-234): scan the start
    directory, recursively or not, flatten the scan map into a list of paths
    and format that list as a tree. Printing or writing the text and the
    summary are left to the caller. */
module Pipeline {

  import opened FileSystem
  import opened Opt
  import Paths
  import Walker
  import Flatten
  import opened Hierarchy
  import Render

  /** The command line: the start directory, the output file if any, and
      whether to descend into subdirectories. */
  datatype Options = Options(start: string, output: Option<string>, recursive: bool)

  /** Colours are used exactly when the text goes to the terminal (main.py:18). */
  predicate UseColours(o: Options)
  {
    o.output.None?
  }

  /** The scan map and counters of the chosen mode (main.py:138-142). */
  function ScanOf(o: Options, root: Entry): (ScanMap, Counters)
  {
    if o.recursive then Walker.WalkAll(o.start, root, Zero) else Walker.WalkOne(o.start, root, Zero)
  }

  /** The lines of the formatted tree (main.py:233-234). */
  function Lines(o: Options, root: Entry, look: Render.Look): seq<string>
  {
    Render.TreeLines(Build(Flatten.Flatten(ScanOf(o, root).0)), UseColours(o), look)
  }

  datatype Report = Report(text: string, counters: Counters)

  /** The text and counters a run produces, with the non-recursive failure
      path returning the map alone. */
  function Run(o: Options, root: Entry, look: Render.Look): Report
  {
    var (tree, c) := ScanOf(o, root);
    Report(Render.FormatTree(Flatten.Flatten(tree), UseColours(o), look), c)
  }

  /** With `add_dir` corrected, a start directory that cannot be listed gives
      an empty text, one directory searched and one skip, in either mode. As
      written, a non-recursive run crashes instead (`RunAsWrittenCrashes`). */
  lemma RunUnlistableStart(o: Options, root: Entry, look: Render.Look)
    requires !root.Dir?
    ensures Run(o, root, look) == Report("", Counters(1, 1, 0, 0))
  {
    if o.recursive {
      Walker.WalkAllCounts(o.start, root, Zero);
      Walker.WalkAllPaths(o.start, root, Zero);
      var tree := ScanOf(o, root).0;
      forall x
        ensures x !in Flatten.Flatten(tree)
      {
        Flatten.FlattenMembers(tree, x);
      }
    }
  }

  /** The run as written: in non-recursive mode an unreadable start makes
      `add_dir` return a pair, and `dict_to_list` raises on it; `None` stands
      for that crash. */
  function RunAsWritten(o: Options, root: Entry, look: Render.Look): (r: Option<Report>)
  {
    if o.recursive then Some(Run(o, root, look))
    else match Walker.WalkOneAsWritten(o.start, root, Zero)
      case Crashed(_) => None
      case Listed(tree, c) => Some(Report(Render.FormatTree(Flatten.Flatten(tree), UseColours(o), look), c))
  }

  /** The program as written crashes exactly on a non-recursive run whose start
      directory cannot be listed; every other run prints what the corrected
      run prints. */
  lemma RunAsWrittenCrashes(o: Options, root: Entry, look: Render.Look)
    ensures RunAsWritten(o, root, look).None? <==> !o.recursive && !root.Dir?
    ensures RunAsWritten(o, root, look).Some? ==> RunAsWritten(o, root, look).value == Run(o, root, look)
  {
    if !o.recursive {
      Walker.WalkOneAgreesWhereListed(o.start, root, Zero);
    }
  }

  /** One entry's own path is canonical when its parent's is. */
  lemma EntryCanonical(root: string, p: string, e: Entry)
    requires Canonical(root, p) && WellFormed(e)
    ensures Canonical(root, Paths.Join(p, e.name)) && Paths.Join(p, e.name) != root
  {
    CanonicalJoin(root, p, e.name);
  }

  /** The entries of a list after its first are well-formed when all are. */
  lemma TailWellFormed(es: seq<Entry>)
    requires es != [] && forall i :: 0 <= i < |es| ==> WellFormed(es[i])
    ensures WellFormed(es[0]) && forall i :: 0 <= i < |es[1..]| ==> WellFormed(es[1..][i])
  {
    forall i | 0 <= i < |es[1..]|
      ensures WellFormed(es[1..][i])
    {
      assert es[1..][i] == es[i + 1];
    }
  }

  lemma EntriesWellFormed(e: Entry)
    requires e.Dir? && WellFormed(e)
    ensures forall i :: 0 <= i < |e.entries| ==> WellFormed(e.entries[i])
  {
  }

  /** Every path of `s` is canonical below `root` and is not `root` itself. */
  ghost predicate AllBelow(root: string, s: set<string>)
  {
    forall q :: q in s ==> Canonical(root, q) && q != root
  }

  /** A directory path found below `p` in listings of well-formed entries is
      canonical below `root` and is not `root` itself. */
  lemma {:induction false} SubDirPathCanonical(root: string, p: string, es: seq<Entry>, x: string)
    requires Canonical(root, p)
    requires forall i :: 0 <= i < |es| ==> WellFormed(es[i])
    requires x in Walker.SubDirPaths(p, es)
    ensures Canonical(root, x) && x != root
    decreases es
  {
    TailWellFormed(es);
    var e := es[0];
    if x in Walker.SubDirPaths(p, es[1..]) {
      SubDirPathCanonical(root, p, es[1..], x);
    } else {
      var q := Paths.Join(p, e.name);
      EntryCanonical(root, p, e);
      if x != q {
        EntriesWellFormed(e);
        SubDirPathCanonical(root, q, e.entries, x);
      }
    }
  }

  /** A file path found below `p` in listings of well-formed entries is
      canonical below `root` and is not `root` itself. */
  lemma {:induction false} SubFilePathCanonical(root: string, p: string, es: seq<Entry>, x: string)
    requires Canonical(root, p)
    requires forall i :: 0 <= i < |es| ==> WellFormed(es[i])
    requires x in Walker.SubFilePaths(p, es)
    ensures Canonical(root, x) && x != root
    decreases es
  {
    TailWellFormed(es);
    var e := es[0];
    if x in Walker.SubFilePaths(p, es[1..]) {
      SubFilePathCanonical(root, p, es[1..], x);
    } else {
      var q := Paths.Join(p, e.name);
      EntryCanonical(root, p, e);
      if e.Dir? {
        EntriesWellFormed(e);
        SubFilePathCanonical(root, q, e.entries, x);
      }
    }
  }

  /** Every directory path found below `p` is canonical below `root`. */
  lemma SubDirPathsCanonical(root: string, p: string, es: seq<Entry>)
    requires Canonical(root, p)
    requires forall i :: 0 <= i < |es| ==> WellFormed(es[i])
    ensures AllBelow(root, Walker.SubDirPaths(p, es))
  {
    forall x | x in Walker.SubDirPaths(p, es)
      ensures Canonical(root, x) && x != root
    {
      SubDirPathCanonical(root, p, es, x);
    }
  }

  /** Every file path found below `p` is canonical below `root`. */
  lemma SubFilePathsCanonical(root: string, p: string, es: seq<Entry>)
    requires Canonical(root, p)
    requires forall i :: 0 <= i < |es| ==> WellFormed(es[i])
    ensures AllBelow(root, Walker.SubFilePaths(p, es))
  {
    forall x | x in Walker.SubFilePaths(p, es)
      ensures Canonical(root, x) && x != root
    {
      SubFilePathCanonical(root, p, es, x);
    }
  }

  /** Every path the recursive walk records is canonical below the start
      directory. */
  lemma WalkAllCanonical(start: string, root: Entry)
    requires root.Dir? && forall i :: 0 <= i < |root.entries| ==> WellFormed(root.entries[i])
    ensures var tree := Walker.WalkAll(start, root, Zero).0;
            start in Keys(tree)
            && forall q :: q in Keys(tree) + Values(tree) ==> Canonical(start, q)
  {
    SubDirPathsCanonical(start, start, root.entries);
    SubFilePathsCanonical(start, start, root.entries);
    Walker.WalkAllPaths(start, root, Zero);
  }

  /** The paths of the directory and file entries of one listing of `p` are
      canonical below `p`. */
  lemma ListedCanonical(p: string, es: seq<Entry>)
    requires forall i :: 0 <= i < |es| ==> WellFormed(es[i])
    ensures AllBelow(p, set e | e in es && IsDirEntry(e) :: Paths.Join(p, e.name))
    ensures AllBelow(p, set e | e in es && e.File? :: Paths.Join(p, e.name))
  {
    forall e | e in es
      ensures Canonical(p, Paths.Join(p, e.name)) && Paths.Join(p, e.name) != p
    {
      var i :| 0 <= i < |es| && es[i] == e;
      EntryCanonical(p, p, e);
    }
  }

  /** Every path the non-recursive scan records is canonical below the start
      directory. */
  lemma WalkOneCanonical(start: string, root: Entry)
    requires root.Dir? && forall i :: 0 <= i < |root.entries| ==> WellFormed(root.entries[i])
    ensures var tree := Walker.WalkOne(start, root, Zero).0;
            start in Keys(tree)
            && forall q :: q in Keys(tree) + Values(tree) ==> Canonical(start, q)
  {
    var tree := Walker.WalkOne(start, root, Zero).0;
    var dirs := set e | e in root.entries && IsDirEntry(e) :: Paths.Join(start, e.name);
    var files := set e | e in root.entries && e.File? :: Paths.Join(start, e.name);
    ListedCanonical(start, root.entries);
    assert Keys(tree) == {start} + dirs by {
      Walker.WalkOneKeys(start, root, Zero);
    }
    assert Values(tree) == files by {
      assert forall e :: e in root.entries && IsDirEntry(e) ==> Paths.Join(start, e.name) in dirs;
      Walker.WalkOneValues(start, root, Zero);
    }
  }

  /** Every path the scan records is canonical below the start directory. */
  lemma ScanCanonical(o: Options, root: Entry)
    requires root.Dir? && forall i :: 0 <= i < |root.entries| ==> WellFormed(root.entries[i])
    ensures var tree := ScanOf(o, root).0;
            o.start in Keys(tree)
            && forall q :: q in Keys(tree) + Values(tree) ==> Canonical(o.start, q)
  {
    if o.recursive {
      WalkAllCanonical(o.start, root);
    } else {
      WalkOneCanonical(o.start, root);
    }
  }

  /** A run on a listable start directory prints the start directory first,
      then one line per node of the tree: every directory and file path the
      scan recorded appears as a node, by its segments below the start
      directory and coloured under that very path, no node is listed twice, and every node leads to a recorded
      path. */
  lemma RunListsEveryPath(o: Options, root: Entry, look: Render.Look)
    requires root.Dir? && forall i :: 0 <= i < |root.entries| ==> WellFormed(root.entries[i])
    ensures Build(Flatten.Flatten(ScanOf(o, root).0)).Rooted?
    ensures Build(Flatten.Flatten(ScanOf(o, root).0)).root == o.start
    ensures var tree := ScanOf(o, root).0;
            var items := Render.Outline(Build(Flatten.Flatten(tree)).top, [], [], o.start);
            && Lines(o, root, look)
               == [Render.Coloured(UseColours(o), look, o.start, o.start)]
                  + Render.RenderAll(items, UseColours(o), look)
            && (forall p :: p in Keys(tree) + Values(tree) && p != o.start ==>
                  exists it :: it in items && Render.Segs(it) == Parts(o.start, p) && it.path == p)
            && (forall it :: it in items ==>
                  exists p :: p in Keys(tree) + Values(tree) && p != o.start
                              && IsPrefix(Render.Segs(it), Parts(o.start, p)))
            && Render.DistinctSegs(items)
  {
    var tree := ScanOf(o, root).0;
    var paths := Flatten.Flatten(tree);
    ScanCanonical(o, root);
    forall x
      ensures x in paths <==> x in Keys(tree) + Values(tree)
    {
      Flatten.FlattenMembers(tree, x);
    }
    Render.TreeListsPaths(paths, o.start);
    Render.FormatTreeLines(paths, UseColours(o), look);
  }
}
