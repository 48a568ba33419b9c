/** `dict_to_list` (main.py:144-153): the scan map flattened into one list of
    paths, each directory followed by its files, directories in insertion order. */
module Flatten {

  import opened FileSystem

  function Flatten(m: ScanMap): seq<string>
  {
    if m == [] then [] else [m[0].0] + m[0].1 + Flatten(m[1..])
  }

  /** The number of file paths recorded in the map, counted with repetition. */
  function TotalFiles(m: ScanMap): nat
  {
    if m == [] then 0 else |m[0].1| + TotalFiles(m[1..])
  }

  /** Flattening distributes over concatenation of maps. */
  lemma {:induction false} FlattenAppend(a: ScanMap, b: ScanMap)
    ensures Flatten(a + b) == Flatten(a) + Flatten(b)
    ensures TotalFiles(a + b) == TotalFiles(a) + TotalFiles(b)
  {
    if a == [] {
      assert a + b == b;
    } else {
      assert (a + b)[0] == a[0];
      assert (a + b)[1..] == a[1..] + b;
      FlattenAppend(a[1..], b);
    }
  }

  /** One line per directory and one per recorded file. */
  lemma {:induction false} FlattenLength(m: ScanMap)
    ensures |Flatten(m)| == |m| + TotalFiles(m)
  {
    if m != [] {
      FlattenLength(m[1..]);
    }
  }

  /** The `i`-th directory sits after the `i` earlier directories and their
      files, and is followed directly by its own files in their listed order. */
  lemma Layout(m: ScanMap, i: nat)
    requires i < |m|
    ensures var off := i + TotalFiles(m[..i]);
            off + 1 + |m[i].1| <= |Flatten(m)|
            && Flatten(m)[off] == m[i].0
            && Flatten(m)[off + 1 .. off + 1 + |m[i].1|] == m[i].1
  {
    var pre, mid, post := m[..i], m[i..i + 1], m[i + 1..];
    assert m == pre + mid + post;
    FlattenAppend(pre + mid, post);
    FlattenAppend(pre, mid);
    FlattenLength(pre);
    assert mid[1..] == [];
    assert Flatten(mid) == [m[i].0] + m[i].1;
    var off := i + TotalFiles(pre);
    assert Flatten(m) == Flatten(pre) + ([m[i].0] + m[i].1) + Flatten(post);
  }

  /** A path appears in the flattened list exactly when it is a recorded
      directory or a recorded file. */
  lemma {:induction false} FlattenMembers(m: ScanMap, x: string)
    ensures x in Flatten(m) <==> x in Keys(m) || x in Values(m)
  {
    if m != [] {
      FlattenMembers(m[1..], x);
      assert Flatten(m) == [m[0].0] + m[0].1 + Flatten(m[1..]);
      assert x in Flatten(m) <==> x == m[0].0 || x in m[0].1 || x in Flatten(m[1..]);
    }
  }
}
