/** The lister's view of the filesystem and its running state: an abstract, finite
    directory tree standing in for `os.scandir`, the four counters the scan keeps,
    and the insertion-ordered dictionary that maps each directory to its files. */
module FileSystem {

  import Paths
  import opened Opt

  /** One entry of a directory as a listing reports it, without following
      symbolic links. */
  datatype Entry =
      /** A directory whose listing succeeds; `entries` in listing order. */
    | Dir(name: string, entries: seq<Entry>)
      /** A directory whose listing raises (permission denied, vanished, not a
          directory any more). `hidden` is what it holds but nobody can list. */
    | Unreadable(name: string, hidden: seq<Entry>)
      /** A regular file. */
    | File(name: string)
      /** Neither a file nor a directory when links are not followed: a symbolic
          link (to anything), a fifo, a socket, a device. */
    | Other(name: string)
      /** An entry whose type query raises an error other than "not found", such
          as a permission error from the `lstat` behind `is_file`; an entry that
          vanished mid-scan answers false to both queries and is `Other`. */
    | Faulty(name: string)

  /** The entry is a directory when links are not followed, listable or not. */
  predicate IsDirEntry(e: Entry)
  {
    e.Dir? || e.Unreadable?
  }

  /** Names as a real filesystem hands them out: non-empty, without a separator,
      unique within their directory. */
  ghost predicate WellFormed(e: Entry)
  {
    && e.name != [] && Paths.SepFree(e.name, '/')
    && (e.Dir? ==>
          && (forall i, j :: 0 <= i < j < |e.entries| ==> e.entries[i].name != e.entries[j].name)
          && forall i :: 0 <= i < |e.entries| ==> WellFormed(e.entries[i]))
  }

  function NumFiles(es: seq<Entry>): nat
  {
    if es == [] then 0 else (if es[0].File? then 1 else 0) + NumFiles(es[1..])
  }

  function NumDirs(es: seq<Entry>): nat
  {
    if es == [] then 0 else (if IsDirEntry(es[0]) then 1 else 0) + NumDirs(es[1..])
  }

  function NumFaulty(es: seq<Entry>): nat
  {
    if es == [] then 0 else (if es[0].Faulty? then 1 else 0) + NumFaulty(es[1..])
  }

  /** The module-level totals of the script: directories handed to the scanner,
      entries and directories skipped, files and directories found. */
  datatype Counters = Counters(dirsSearched: nat, skipped: nat, filesFound: nat, dirsFound: nat)

  /** The four global counters start at zero (main.py:20-23). */
  const Zero := Counters(0, 0, 0, 0)

  /** Names for the four counters, so that a statement about "each counter" is
      made once. */
  datatype Field = DirsSearched | Skipped | FilesFound | DirsFound

  function Get(c: Counters, f: Field): nat
  {
    match f
    case DirsSearched => c.dirsSearched
    case Skipped => c.skipped
    case FilesFound => c.filesFound
    case DirsFound => c.dirsFound
  }

  function Add(a: Counters, b: Counters): Counters
  {
    Counters(a.dirsSearched + b.dirsSearched, a.skipped + b.skipped,
             a.filesFound + b.filesFound, a.dirsFound + b.dirsFound)
  }

  /** The scan result: a Python dict from directory path to its files, kept as a
      list of pairs in insertion order. */
  type ScanMap = seq<(string, seq<string>)>

  function Keys(m: ScanMap): set<string>
  {
    if m == [] then {} else {m[0].0} + Keys(m[1..])
  }

  /** Every file path recorded under some key. */
  function Values(m: ScanMap): set<string>
  {
    if m == [] then {} else (set f | f in m[0].1) + Values(m[1..])
  }

  ghost predicate UniqueKeys(m: ScanMap)
  {
    forall i, j :: 0 <= i < j < |m| ==> m[i].0 != m[j].0
  }

  lemma {:induction false} KeysIndex(m: ScanMap, k: string)
    ensures k in Keys(m) <==> exists i :: 0 <= i < |m| && m[i].0 == k
  {
    if m != [] {
      KeysIndex(m[1..], k);
      if k in Keys(m[1..]) {
        var i :| 0 <= i < |m[1..]| && m[1..][i].0 == k;
        assert m[i + 1].0 == k;
      }
      if exists i :: 0 <= i < |m| && m[i].0 == k {
        var i :| 0 <= i < |m| && m[i].0 == k;
        if i > 0 { assert m[1..][i - 1].0 == k; }
      }
    }
  }

  /** `m.get(k)`: the value of the first pair holding `k`. */
  function Lookup(m: ScanMap, k: string): Option<seq<string>>
  {
    if m == [] then None
    else if m[0].0 == k then Some(m[0].1)
    else Lookup(m[1..], k)
  }

  /** A key is found exactly when it is present, and what is found is the value
      of one of its pairs. */
  lemma {:induction false} LookupSpec(m: ScanMap, k: string)
    ensures Lookup(m, k).None? <==> k !in Keys(m)
    ensures Lookup(m, k).Some? ==> exists i :: 0 <= i < |m| && m[i] == (k, Lookup(m, k).value)
  {
    if m != [] && m[0].0 != k {
      LookupSpec(m[1..], k);
      var r := Lookup(m[1..], k);
      if r.Some? {
        var i :| 0 <= i < |m[1..]| && m[1..][i] == (k, r.value);
        assert m[i + 1] == (k, r.value);
      }
    }
  }

  /** `m[k] = v`: a key already present keeps its position and takes the new
      value; a new key is appended at the end. */
  function Put(m: ScanMap, k: string, v: seq<string>): ScanMap
  {
    if m == [] then [(k, v)]
    else if m[0].0 == k then [(k, v)] + m[1..]
    else [m[0]] + Put(m[1..], k, v)
  }

  /** After `m[k] = v` the keys are the old ones plus `k`, `k` maps to `v`, every
      other key keeps its value, an existing key keeps its position, a new key
      goes last, and the only new file paths are those of `v`. */
  lemma {:induction false} PutSpec(m: ScanMap, k: string, v: seq<string>)
    ensures Keys(Put(m, k, v)) == Keys(m) + {k}
    ensures Lookup(Put(m, k, v), k) == Some(v)
    ensures forall x :: x != k ==> Lookup(Put(m, k, v), x) == Lookup(m, x)
    ensures k in Keys(m) ==> |Put(m, k, v)| == |m| && forall i :: 0 <= i < |m| ==> Put(m, k, v)[i].0 == m[i].0
    ensures k !in Keys(m) ==> Put(m, k, v) == m + [(k, v)]
    ensures Values(Put(m, k, v)) <= Values(m) + set f | f in v
  {
    var r := Put(m, k, v);
    if m == [] {
    } else if m[0].0 == k {
      assert r[1..] == m[1..];
    } else {
      PutSpec(m[1..], k, v);
      assert r[1..] == Put(m[1..], k, v);
      assert m == [m[0]] + m[1..];
    }
  }

  lemma PutKeepsUniqueKeys(m: ScanMap, k: string, v: seq<string>)
    requires UniqueKeys(m)
    ensures UniqueKeys(Put(m, k, v))
  {
    PutSpec(m, k, v);
    if k !in Keys(m) {
      forall i | 0 <= i < |m| ensures m[i].0 != k {
        KeysIndex(m, k);
      }
    }
  }
}
