/** The nested dictionary `format_tree` builds from the flat list of paths before
    rendering it (main.py:155-181): the paths are sorted, the first becomes the
    root, and every other path is split below the root into name segments that
    are inserted one level per segment. */
module Hierarchy {

  import opened Order
  import opened Opt
  import Paths

  /** A dictionary of child names to sub-dictionaries, in insertion order. */
  datatype Node = Node(children: seq<Child>)
  datatype Child = Child(name: string, sub: Node)

  /** `node.get(name)`. */
  function Find(cs: seq<Child>, k: string): Option<Node>
  {
    if cs == [] then None
    else if cs[0].name == k then Some(cs[0].sub)
    else Find(cs[1..], k)
  }

  /** `node[name] = sub`: an existing name keeps its position, a new one is appended. */
  function Assign(cs: seq<Child>, k: string, v: Node): seq<Child>
  {
    if cs == [] then [Child(k, v)]
    else if cs[0].name == k then [Child(k, v)] + cs[1..]
    else [cs[0]] + Assign(cs[1..], k, v)
  }

  /** The names of a node's children, in order. */
  function Names(cs: seq<Child>): seq<string>
  {
    if cs == [] then [] else [cs[0].name] + Names(cs[1..])
  }

  /** After an assignment the name maps to the new value and every other name
      maps to what it mapped to before. */
  lemma {:induction false} FindAssign(cs: seq<Child>, k: string, v: Node, x: string)
    ensures Find(Assign(cs, k, v), x) == if x == k then Some(v) else Find(cs, x)
  {
    if cs != [] && cs[0].name != k {
      FindAssign(cs[1..], k, v, x);
    }
  }

  /** Assigning the same name twice keeps only the second value. */
  lemma {:induction false} AssignTwice(cs: seq<Child>, k: string, v: Node, w: Node)
    ensures Assign(Assign(cs, k, v), k, w) == Assign(cs, k, w)
  {
    if cs != [] && cs[0].name != k {
      AssignTwice(cs[1..], k, v, w);
    }
  }

  /** An assignment adds its name to the names present and keeps them distinct. */
  lemma {:induction false} AssignMembers(cs: seq<Child>, k: string, v: Node)
    ensures forall x :: x in Names(Assign(cs, k, v)) <==> x == k || x in Names(cs)
    ensures forall c :: c in Assign(cs, k, v) ==> c == Child(k, v) || c in cs
  {
    NamesMembers(cs);
    NamesMembers(Assign(cs, k, v));
    if cs != [] {
      AssignMembers(cs[1..], k, v);
      NamesMembers(cs[1..]);
      NamesMembers(Assign(cs[1..], k, v));
    }
  }

  lemma {:induction false} AssignDistinct(cs: seq<Child>, k: string, v: Node)
    requires Distinct(cs)
    ensures Distinct(Assign(cs, k, v))
  {
    if cs != [] && cs[0].name != k {
      var rest := Assign(cs[1..], k, v);
      assert Distinct(cs[1..]) by {
        forall i, j | 0 <= i < j < |cs[1..]|
          ensures cs[1..][i].name != cs[1..][j].name
        {
          assert cs[1..][i] == cs[i + 1] && cs[1..][j] == cs[j + 1];
        }
      }
      AssignDistinct(cs[1..], k, v);
      AssignMembers(cs[1..], k, v);
      NamesMembers(rest);
      NamesMembers(cs[1..]);
      var a := Assign(cs, k, v);
      assert a == [cs[0]] + rest;
      forall j | 1 <= j < |a|
        ensures a[0].name != a[j].name
      {
        assert a[j] == rest[j - 1];
        assert a[j].name in Names(rest);
        if a[j].name != k {
          var i :| 0 <= i < |cs[1..]| && Names(cs[1..])[i] == a[j].name;
          assert cs[i + 1].name == a[j].name;
        }
      }
      forall i, j | 0 <= i < j < |a|
        ensures a[i].name != a[j].name
      {
        if i > 0 {
          assert a[i] == rest[i - 1] && a[j] == rest[j - 1];
        }
      }
    }
  }

  /** Assigning a name adds it to the names and keeps them distinct. */
  lemma AssignNames(cs: seq<Child>, k: string, v: Node)
    ensures forall x :: x in Names(Assign(cs, k, v)) <==> x == k || x in Names(cs)
    ensures Distinct(cs) ==> Distinct(Assign(cs, k, v))
    ensures forall c :: c in Assign(cs, k, v) ==> c == Child(k, v) || c in cs
  {
    AssignMembers(cs, k, v);
    if Distinct(cs) {
      AssignDistinct(cs, k, v);
    }
  }


  lemma {:induction false} NamesMembers(cs: seq<Child>)
    ensures |Names(cs)| == |cs|
    ensures forall i :: 0 <= i < |cs| ==> Names(cs)[i] == cs[i].name
  {
    if cs != [] {
      NamesMembers(cs[1..]);
    }
  }

  /** Looking up a child's own name finds it, when names are distinct. */
  lemma {:induction false} FindMember(cs: seq<Child>, c: Child)
    requires Distinct(cs) && c in cs
    ensures Find(cs, c.name) == Some(c.sub)
  {
    if cs[0] != c {
      var j :| 0 <= j < |cs[1..]| && cs[1..][j] == c;
      assert cs[j + 1] == c;
      forall i, k | 0 <= i < k < |cs[1..]|
        ensures cs[1..][i].name != cs[1..][k].name
      {
        assert cs[1..][i] == cs[i + 1] && cs[1..][k] == cs[k + 1];
      }
      FindMember(cs[1..], c);
    }
  }

  /** A successful lookup finds a child of that name. */
  lemma {:induction false} FindSome(cs: seq<Child>, k: string)
    requires Find(cs, k).Some?
    ensures Child(k, Find(cs, k).value) in cs
  {
    if cs[0].name != k {
      FindSome(cs[1..], k);
    }
  }

  /** No two children of a node share a name. */
  ghost predicate Distinct(cs: seq<Child>)
  {
    forall i, j :: 0 <= i < j < |cs| ==> cs[i].name != cs[j].name
  }

  /** Every node of the tree has distinct child names, as a dictionary does. */
  ghost predicate WellNamed(n: Node)
    decreases n
  {
    Distinct(n.children) && forall c :: c in n.children ==> WellNamed(c.sub)
  }

  /** The loop over `parts` (main.py:173-181): every segment but the last is
      entered, created empty only when absent, and the last is set to an empty
      dictionary, replacing whatever was there. */
  function InsertParts(n: Node, ps: seq<string>): Node
    requires |ps| >= 1
    decreases |ps|
  {
    if |ps| == 1 then Node(Assign(n.children, ps[0], Node([])))
    else if Find(n.children, ps[0]).Some? then
      Node(Assign(n.children, ps[0], InsertParts(Find(n.children, ps[0]).value, ps[1..])))
    else
      Node(Assign(n.children, ps[0], InsertParts(Node([]), ps[1..])))
  }

  /** `path[len(root):].lstrip('/')` (main.py:169). */
  function Relative(root: string, p: string): string
  {
    Paths.LStripSlash(Paths.DropPrefix(p, |root|))
  }

  /** The name segments a path is inserted under. */
  function Parts(root: string, p: string): seq<string>
  {
    Paths.Split(Relative(root, p), '/')
  }

  /** One iteration of the loop over the sorted paths (main.py:163-181) on the
      root's dictionary `n`. The root itself resets it to an empty dictionary,
      a path with nothing below the root is skipped, and any other path is
      inserted. The first sorted path is the root, so the root's entry exists
      from the first iteration on and `setdefault` never has to create it. */
  function Step(root: string, n: Node, p: string): Node
  {
    if p == root then Node([])
    else if Relative(root, p) == [] then n
    else InsertParts(n, Parts(root, p))
  }

  function BuildFrom(root: string, n: Node, ps: seq<string>): Node
    decreases |ps|
  {
    if ps == [] then n else BuildFrom(root, Step(root, n, ps[0]), ps[1..])
  }

  /** The dictionary `format_tree` builds: empty, or one root path mapped to its
      nested children. */
  datatype Built = Empty | Rooted(root: string, top: Node)

  /** Lines 158-181: sort, take the first path as root and fold the loop. */
  function Build(paths: seq<string>): (r: Built)
    ensures r.Empty? <==> paths == []
  {
    if paths == [] then Empty
    else
      var s := Sort(paths);
      assert |s| == |multiset(s)| == |paths|;
      Rooted(s[0], BuildFrom(s[0], Node([]), s))
  }

  /** The root of a non-empty build is the least of the paths. */
  lemma BuildRoot(paths: seq<string>)
    requires paths != []
    ensures Build(paths).root in paths
    ensures forall p :: p in paths ==> LessEq(Build(paths).root, p)
  {
    var s := Sort(paths);
    assert |s| == |multiset(s)| == |paths|;
    assert s[0] in multiset(paths);
    forall p | p in paths
      ensures LessEq(s[0], p)
    {
      assert p in multiset(s);
      HeadIsLeast(s, p);
    }
  }

  // ---------------------------------------------------------------------
  // Repetition and order of the input do not matter.

  /** Inserting the same segments twice changes nothing the second time. */
  lemma {:induction false} InsertIdempotent(n: Node, ps: seq<string>)
    requires |ps| >= 1
    ensures InsertParts(InsertParts(n, ps), ps) == InsertParts(n, ps)
    decreases |ps|
  {
    var m := InsertParts(n, ps);
    if |ps| == 1 {
      AssignTwice(n.children, ps[0], Node([]), Node([]));
    } else {
      var c := if Find(n.children, ps[0]).Some? then Find(n.children, ps[0]).value else Node([]);
      var v := InsertParts(c, ps[1..]);
      assert m == Node(Assign(n.children, ps[0], v));
      FindAssign(n.children, ps[0], v, ps[0]);
      InsertIdempotent(c, ps[1..]);
      AssignTwice(n.children, ps[0], v, v);
    }
  }

  /** Processing a path twice in a row is the same as processing it once. */
  lemma StepIdempotent(root: string, n: Node, p: string)
    ensures Step(root, Step(root, n, p), p) == Step(root, n, p)
  {
    if p != root && Relative(root, p) != [] {
      InsertIdempotent(n, Parts(root, p));
    }
  }

  /** Repeated neighbours in the input do not change the result. */
  lemma {:induction false} BuildFromDedup(root: string, n: Node, s: seq<string>)
    ensures BuildFrom(root, n, Dedup(s)) == BuildFrom(root, n, s)
    decreases |s|
  {
    if |s| > 1 {
      BuildFromDedup(root, Step(root, n, s[0]), s[1..]);
      if s[0] == s[1] {
        BuildFromDedup(root, n, s[1..]);
        StepIdempotent(root, n, s[0]);
        assert s[1..][1..] == s[2..];
      }
    }
  }

  /** The sorted input with repeats collapsed: strictly sorted, same elements. */
  lemma SortedSet(xs: seq<string>)
    ensures forall x :: x in Dedup(Sort(xs)) <==> x in xs
    ensures StrictlySortedBy(Dedup(Sort(xs)), Id)
  {
    var a := Sort(xs);
    DedupSpec(a);
    forall x
      ensures x in a <==> x in xs
    {
      assert x in a <==> x in multiset(a);
      assert x in xs <==> x in multiset(xs);
    }
  }

  /** The build only sees the sorted input with repeats collapsed. */
  lemma BuildViaSet(xs: seq<string>)
    requires xs != []
    ensures var d := Dedup(Sort(xs));
            d != [] && Build(xs) == Rooted(d[0], BuildFrom(d[0], Node([]), d))
  {
    var a := Sort(xs);
    assert |a| == |multiset(a)| == |xs|;
    BuildFromDedup(a[0], Node([]), a);
  }

  /** `format_tree` depends only on the set of paths it is given: duplicates and
      the order of the input are forgotten. */
  lemma BuildDependsOnSet(xs: seq<string>, ys: seq<string>)
    requires forall x :: x in xs <==> x in ys
    ensures Build(xs) == Build(ys)
  {
    SameElementsEmpty(xs, ys);
    if xs != [] {
      SortedSet(xs);
      SortedSet(ys);
      StrictlySortedUnique(Dedup(Sort(xs)), Dedup(Sort(ys)));
      BuildViaSet(xs);
      BuildViaSet(ys);
    }
  }

  // ---------------------------------------------------------------------
  // What the tree holds.

  /** The node reached by following `qs` down from `n` exists. */
  predicate Has(n: Node, qs: seq<string>)
    decreases |qs|
  {
    |qs| >= 1 && Find(n.children, qs[0]).Some?
    && (|qs| == 1 || Has(Find(n.children, qs[0]).value, qs[1..]))
  }

  predicate IsPrefix(qs: seq<string>, ps: seq<string>)
  {
    |qs| <= |ps| && ps[..|qs|] == qs
  }

  /** After inserting `ps`, every non-empty prefix of `ps` is present. */
  lemma {:induction false} InsertHas(n: Node, ps: seq<string>, k: nat)
    requires 1 <= k <= |ps|
    ensures Has(InsertParts(n, ps), ps[..k])
    decreases |ps|
  {
    var c := if Find(n.children, ps[0]).Some? then Find(n.children, ps[0]).value else Node([]);
    var v := if |ps| == 1 then Node([]) else InsertParts(c, ps[1..]);
    assert InsertParts(n, ps) == Node(Assign(n.children, ps[0], v));
    FindAssign(n.children, ps[0], v, ps[0]);
    if k > 1 {
      InsertHas(c, ps[1..], k - 1);
      assert ps[..k][1..] == ps[1..][..k - 1];
    }
  }

  /** An insertion keeps every node that was present, except below a node
      the insertion replaces by an empty one: the segments inserted are a
      proper prefix of the node's. */
  lemma {:induction false} InsertKeeps(n: Node, ps: seq<string>, qs: seq<string>)
    requires |ps| >= 1
    requires Has(n, qs)
    requires !(IsPrefix(ps, qs) && |ps| < |qs|)
    ensures Has(InsertParts(n, ps), qs)
    decreases |ps|
  {
    var c := if Find(n.children, ps[0]).Some? then Find(n.children, ps[0]).value else Node([]);
    var v := if |ps| == 1 then Node([]) else InsertParts(c, ps[1..]);
    assert InsertParts(n, ps) == Node(Assign(n.children, ps[0], v));
    FindAssign(n.children, ps[0], v, qs[0]);
    if qs[0] == ps[0] && |qs| > 1 && |ps| > 1 {
      assert Has(c, qs[1..]);
      InsertKeeps(c, ps[1..], qs[1..]);
    }
  }

  /** A node present after an insertion was present before or lies on the
      inserted path. */
  lemma {:induction false} InsertProvenance(n: Node, ps: seq<string>, qs: seq<string>)
    requires |ps| >= 1
    requires Has(InsertParts(n, ps), qs)
    ensures Has(n, qs) || IsPrefix(qs, ps)
    decreases |ps|
  {
    var c := if Find(n.children, ps[0]).Some? then Find(n.children, ps[0]).value else Node([]);
    var v := if |ps| == 1 then Node([]) else InsertParts(c, ps[1..]);
    assert InsertParts(n, ps) == Node(Assign(n.children, ps[0], v));
    FindAssign(n.children, ps[0], v, qs[0]);
    if qs[0] == ps[0] && |qs| > 1 {
      assert Has(v, qs[1..]);
      if |ps| > 1 {
        InsertProvenance(c, ps[1..], qs[1..]);
        if IsPrefix(qs[1..], ps[1..]) {
          assert qs == [qs[0]] + qs[1..];
          assert ps[..|qs|] == [ps[0]] + ps[1..][..|qs| - 1];
        }
      }
    }
  }

  /** Every node of the built tree lies on the segments of some input path other
      than the root: the builder invents nothing. */
  lemma {:induction false} BuildFromProvenance(root: string, n: Node, s: seq<string>, qs: seq<string>)
    requires Has(BuildFrom(root, n, s), qs)
    ensures Has(n, qs) || exists p :: p in s && p != root && IsPrefix(qs, Parts(root, p))
    decreases |s|
  {
    if s != [] {
      var n' := Step(root, n, s[0]);
      BuildFromProvenance(root, n', s[1..], qs);
      if Has(n', qs) && s[0] != root && Relative(root, s[0]) != [] {
        InsertProvenance(n, Parts(root, s[0]), qs);
      }
      if exists p :: p in s[1..] && p != root && IsPrefix(qs, Parts(root, p)) {
        var p :| p in s[1..] && p != root && IsPrefix(qs, Parts(root, p));
        assert p in s;
      }
    }
  }

  /** What `os.path.join(root, r)` puts in front of a relative `r`: the root,
      followed by a separator unless it is empty or already ends with one. */
  function Base(root: string): string
  {
    if root == [] || root[|root| - 1] == '/' then root else root + "/"
  }

  lemma JoinRelative(root: string, r: string)
    requires r != [] && r[0] != '/'
    ensures Paths.Join(root, r) == Base(root) + r
  {
  }

  predicate NoEmptySegment(segs: seq<string>)
  {
    forall i :: 0 <= i < |segs| ==> segs[i] != []
  }

  /** A path `p` is canonical below `root` when it is the root, or the root
      joined with a relative path of non-empty segments, as every path the
      directory walk produces is. */
  predicate Canonical(root: string, p: string)
  {
    p == root
    || (Relative(root, p) != []
        && NoEmptySegment(Parts(root, p))
        && p == Paths.Join(root, Relative(root, p)))
  }

  /** Joining the root with a canonical path's segments one by one, as the
      printer does, gives the path back. */
  lemma CanonicalJoinAll(root: string, p: string)
    requires Canonical(root, p) && p != root
    ensures Paths.JoinAll(root, Parts(root, p)) == p
  {
    var segs := Parts(root, p);
    assert forall i :: 0 <= i < |segs| ==> segs[i] != [] && Paths.SepFree(segs[i], '/');
    Paths.JoinAllSegs(root, segs);
  }

  /** A canonical path other than the root extends the root. */
  lemma CanonicalExtends(root: string, p: string)
    requires Canonical(root, p) && p != root
    ensures p == Base(root) + Relative(root, p)
    ensures |root| < |p| && p[..|root|] == root
  {
    JoinRelative(root, Relative(root, p));
    assert p[..|root|] == Base(root)[..|root|];
  }

  /** Segments that extend another path's segments spell a relative path that
      extends the other relative path. */
  lemma RelativeExtends(root: string, x: string, p: string)
    requires IsPrefix(Parts(root, x), Parts(root, p)) && |Parts(root, x)| < |Parts(root, p)|
    ensures |Relative(root, x)| < |Relative(root, p)|
    ensures Relative(root, p)[..|Relative(root, x)|] == Relative(root, x)
  {
    var px, pp := Parts(root, x), Parts(root, p);
    var q := pp[|px|..];
    assert pp == px + q;
    Paths.JoinSegsAppend(px, q, '/');
    assert Relative(root, p) == Relative(root, x) + "/" + Paths.JoinSegs(q, '/') by {
      assert Paths.JoinSegs(px, '/') == Relative(root, x);
      assert Paths.JoinSegs(pp, '/') == Relative(root, p);
    }
  }

  /** Among canonical paths, one whose segments are a proper prefix of another's
      sorts strictly first; so in sorted order no leaf assignment can replace a
      subtree built earlier. */
  lemma CanonicalPrefixLess(root: string, x: string, p: string)
    requires Canonical(root, x) && Canonical(root, p) && x != root && p != root
    requires IsPrefix(Parts(root, x), Parts(root, p)) && |Parts(root, x)| < |Parts(root, p)|
    ensures Less(x, p)
  {
    var rx, rp := Relative(root, x), Relative(root, p);
    RelativeExtends(root, x, p);
    CanonicalExtends(root, x);
    CanonicalExtends(root, p);
    assert p[..|x|] == Base(root) + rp[..|rx|];
    ProperPrefixLess(x, p);
  }

  /** A canonical relative path does not end with a separator. */
  lemma RelativeEndsWithName(root: string, p: string)
    requires Canonical(root, p) && p != root
    ensures var r := Relative(root, p); r != [] && r[0] != '/' && r[|r| - 1] != '/'
  {
    var r := Relative(root, p);
    var segs := Parts(root, p);
    Paths.JoinSegsEndsWithLast(segs, '/');
    var l := segs[|segs| - 1];
    assert l != [] && Paths.SepFree(l, '/');
    assert r[|r| - 1] == l[|l| - 1];
  }

  /** The relative part of the root's base followed by a relative path is
      that path. */
  lemma RelativeOfBase(root: string, r: string)
    requires r != [] && r[0] != '/'
    ensures Relative(root, Base(root) + r) == r
  {
    assert (Base(root) + r)[|root|..] == Base(root)[|root|..] + r;
  }

  lemma JoinToRoot(root: string, name: string)
    requires name != [] && Paths.SepFree(name, '/')
    ensures Relative(root, Paths.Join(root, name)) == name
    ensures Parts(root, Paths.Join(root, name)) == [name]
  {
    JoinRelative(root, name);
    RelativeOfBase(root, name);
    Paths.SplitSepFree(name, '/');
  }

  lemma JoinBelow(root: string, r: string, name: string)
    requires r != [] && r[0] != '/' && r[|r| - 1] != '/' && name != [] && name[0] != '/'
    ensures Paths.Join(Base(root) + r, name) == Base(root) + (r + "/" + name)
    ensures Relative(root, Base(root) + (r + "/" + name)) == r + "/" + name
  {
    var b := Base(root);
    var p := b + r;
    assert p[|p| - 1] == r[|r| - 1];
    assert Paths.Join(p, name) == p + "/" + name;
    assert p + "/" + name == b + (r + "/" + name);
    RelativeOfBase(root, r + "/" + name);
  }

  lemma JoinBelowRoot(root: string, p: string, name: string)
    requires Canonical(root, p) && p != root && name != [] && Paths.SepFree(name, '/')
    ensures Relative(root, Paths.Join(p, name)) == Relative(root, p) + "/" + name
    ensures Paths.Join(p, name) == Base(root) + Relative(root, Paths.Join(p, name))
    ensures Parts(root, Paths.Join(p, name)) == Parts(root, p) + [name]
  {
    var r := Relative(root, p);
    CanonicalExtends(root, p);
    RelativeEndsWithName(root, p);
    JoinBelow(root, r, name);
    Paths.SplitSnoc(r, name, '/');
  }

  lemma CanonicalJoinBelow(root: string, p: string, name: string)
    requires Canonical(root, p) && p != root && name != [] && Paths.SepFree(name, '/')
    ensures Canonical(root, Paths.Join(p, name))
    ensures Paths.Join(p, name) != root
    ensures Parts(root, Paths.Join(p, name)) == Parts(root, p) + [name]
  {
    var q := Paths.Join(p, name);
    JoinBelowRoot(root, p, name);
    assert Relative(root, q) != [] && Relative(root, q)[0] != '/' by {
      RelativeEndsWithName(root, p);
    }
    JoinRelative(root, Relative(root, q));
    assert NoEmptySegment(Parts(root, q)) by {
      assert NoEmptySegment(Parts(root, p));
    }
  }

  /** Joining a non-empty, slash-free name to a canonical path gives a
      canonical path with one more segment: `os.path.join(entry_dir, name)`
      keeps every path the walk records below the start directory. */
  lemma CanonicalJoin(root: string, p: string, name: string)
    requires Canonical(root, p) && name != [] && Paths.SepFree(name, '/')
    ensures Canonical(root, Paths.Join(p, name))
    ensures Paths.Join(p, name) != root
    ensures p == root ==> Parts(root, Paths.Join(p, name)) == [name]
    ensures p != root ==> Parts(root, Paths.Join(p, name)) == Parts(root, p) + [name]
  {
    if p == root {
      JoinToRoot(root, name);
    } else {
      CanonicalJoinBelow(root, p, name);
    }
  }

  /** Processing a path that is not the root makes its own node present. */
  lemma StepHasOwn(root: string, n: Node, x: string)
    requires Canonical(root, x) && x != root
    ensures Has(Step(root, n, x), Parts(root, x))
  {
    InsertHas(n, Parts(root, x), |Parts(root, x)|);
    assert Parts(root, x)[..|Parts(root, x)|] == Parts(root, x);
  }

  /** Processing a path keeps the node of every canonical path sorting no later
      than it. */
  lemma StepKeeps(root: string, n: Node, x: string, p: string)
    requires Canonical(root, x) && Canonical(root, p)
    requires LessEq(root, p) && LessEq(p, x) && p != root
    requires Has(n, Parts(root, p))
    ensures Has(Step(root, n, x), Parts(root, p))
  {
    if x == root {
      LessEqAntisym(p, root);
    } else {
      if IsPrefix(Parts(root, x), Parts(root, p)) && |Parts(root, x)| < |Parts(root, p)| {
        CanonicalPrefixLess(root, x, p);
        LessEqAntisym(p, x);
      }
      InsertKeeps(n, Parts(root, x), Parts(root, p));
    }
  }

  /** Processing one more path keeps every earlier node and adds its own. */
  lemma StepKeepsAll(root: string, n: Node, prev: seq<string>, x: string)
    requires Canonical(root, x) && LessEq(root, x)
    requires forall p :: p in prev ==> Canonical(root, p) && LessEq(root, p) && LessEq(p, x)
    requires forall p :: p in prev && p != root ==> Has(n, Parts(root, p))
    ensures forall p :: p in prev + [x] && p != root ==> Has(Step(root, n, x), Parts(root, p))
  {
    forall p | p in prev + [x] && p != root
      ensures Has(Step(root, n, x), Parts(root, p))
    {
      if p == x {
        StepHasOwn(root, n, x);
      } else {
        StepKeeps(root, n, x, p);
      }
    }
  }

  /** The loop keeps every node inserted so far, given sorted canonical input
      whose least element is the root. `prev` is the part of the input
      already processed. */
  lemma {:induction false} BuildFromComplete(root: string, n: Node, prev: seq<string>, s: seq<string>)
    requires SortedBy(s, Id)
    requires forall p, y :: p in prev && y in s ==> LessEq(p, y)
    requires forall p :: p in prev ==> Canonical(root, p) && LessEq(root, p)
    requires forall p :: p in s ==> Canonical(root, p) && LessEq(root, p)
    requires forall p :: p in prev && p != root ==> Has(n, Parts(root, p))
    ensures forall p :: (p in prev || p in s) && p != root ==> Has(BuildFrom(root, n, s), Parts(root, p))
    decreases |s|
  {
    if s != [] {
      var x := s[0];
      var n' := Step(root, n, x);
      var prev' := prev + [x];
      assert x in s;
      StepKeepsAll(root, n, prev, x);
      SortedTail(s, Id);
      forall p, y | p in prev' && y in s[1..]
        ensures LessEq(p, y)
      {
        assert y in s;
        if p == x {
          HeadIsLeast(s, y);
        }
      }
      BuildFromComplete(root, n', prev', s[1..]);
      assert forall p :: p in s ==> p == x || p in s[1..];
    }
  }

  /** The root sorts no later than any canonical path below it. */
  lemma CanonicalRootLeast(root: string, p: string)
    requires Canonical(root, p)
    ensures LessEq(root, p)
  {
    if p == root {
      LessEqRefl(root);
    } else {
      CanonicalExtends(root, p);
      PrefixLessEq(root, p);
    }
  }

  /** When `root` is one of the paths and sorts no later than all of them, the
      build is rooted at it and folds the loop over the sorted paths. */
  lemma BuildFromLeast(paths: seq<string>, root: string)
    requires root in paths
    requires forall p :: p in paths ==> LessEq(root, p)
    ensures Build(paths) == Rooted(root, Build(paths).top)
    ensures Build(paths).top == BuildFrom(root, Node([]), Sort(paths))
    ensures forall p :: p in Sort(paths) <==> p in paths
  {
    var s := Sort(paths);
    assert |s| == |multiset(s)| == |paths|;
    forall p
      ensures p in s <==> p in paths
    {
      assert p in s <==> p in multiset(s);
      assert p in paths <==> p in multiset(paths);
    }
    BuildRoot(paths);
    LessEqAntisym(s[0], root);
  }

  /** On canonical input below a root that is one of the paths, the build is
      rooted there and holds the segment path of every other input. In
      particular neither the reset on meeting the root nor the final
      `current[parts[-1]] = {}` discards a node inserted earlier. */
  lemma BuildComplete(paths: seq<string>, root: string)
    requires root in paths
    requires forall p :: p in paths ==> Canonical(root, p)
    ensures Build(paths) == Rooted(root, Build(paths).top)
    ensures forall p :: p in paths && p != root ==> Has(Build(paths).top, Parts(root, p))
  {
    forall p | p in paths
      ensures LessEq(root, p)
    {
      CanonicalRootLeast(root, p);
    }
    BuildFromLeast(paths, root);
    BuildFromComplete(root, Node([]), [], Sort(paths));
  }

  /** Every node of the built tree lies on the segment path of an input other
      than the root. */
  lemma BuildProvenance(paths: seq<string>, qs: seq<string>)
    requires paths != [] && Has(Build(paths).top, qs)
    ensures exists p :: p in paths && p != Build(paths).root && IsPrefix(qs, Parts(Build(paths).root, p))
  {
    var s := Sort(paths);
    assert |s| == |multiset(s)| == |paths|;
    BuildFromProvenance(s[0], Node([]), s, qs);
    var p :| p in s && p != s[0] && IsPrefix(qs, Parts(s[0], p));
    assert p in multiset(s);
  }

  // ---------------------------------------------------------------------
  // Dictionary shape.

  lemma {:induction false} InsertWellNamed(n: Node, ps: seq<string>)
    requires |ps| >= 1
    requires WellNamed(n)
    ensures WellNamed(InsertParts(n, ps))
    decreases |ps|
  {
    var c := if Find(n.children, ps[0]).Some? then Find(n.children, ps[0]).value else Node([]);
    var v := if |ps| == 1 then Node([]) else InsertParts(c, ps[1..]);
    assert InsertParts(n, ps) == Node(Assign(n.children, ps[0], v));
    AssignNames(n.children, ps[0], v);
    if |ps| > 1 {
      FindWellNamed(n.children, ps[0]);
      InsertWellNamed(c, ps[1..]);
    }
  }

  lemma {:induction false} FindWellNamed(cs: seq<Child>, k: string)
    requires forall c :: c in cs ==> WellNamed(c.sub)
    ensures Find(cs, k).Some? ==> WellNamed(Find(cs, k).value)
  {
    if cs != [] && cs[0].name != k {
      FindWellNamed(cs[1..], k);
    }
  }

  lemma {:induction false} BuildFromWellNamed(root: string, n: Node, s: seq<string>)
    requires WellNamed(n)
    ensures WellNamed(BuildFrom(root, n, s))
    decreases |s|
  {
    if s != [] {
      var x := s[0];
      if x != root && Relative(root, x) != [] {
        InsertWellNamed(n, Parts(root, x));
      }
      BuildFromWellNamed(root, Step(root, n, x), s[1..]);
    }
  }

  /** Every dictionary of the built tree has distinct names, so sorting its
      items never compares two sub-dictionaries. */
  lemma BuildWellNamed(paths: seq<string>)
    requires paths != []
    ensures WellNamed(Build(paths).top)
  {
    var s := Sort(paths);
    assert |s| == |multiset(s)| == |paths|;
    BuildFromWellNamed(s[0], Node([]), s);
  }

  /** Inserting a parent after its child replaces the child's subtree: the
      overwrite on line 181 is safe only because the paths are sorted first. */
  lemma LeafOverwriteNeedsOrder()
    ensures Has(InsertParts(Node([]), ["a", "b"]), ["a", "b"])
    ensures !Has(InsertParts(InsertParts(Node([]), ["a", "b"]), ["a"]), ["a", "b"])
  {
    InsertHas(Node([]), ["a", "b"], 2);
    assert ["a", "b"][..2] == ["a", "b"];
  }
}
