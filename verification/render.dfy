/** The text `format_tree` prints for the built dictionary (main.py:183-222):
    the root on a line of its own, then every node below it in depth-first
    order, siblings sorted by name, each line indented by the connectors of its
    ancestors and ending in a connector and the coloured name. */
module Render {

  import opened Order
  import opened Hierarchy
  import Paths
  import Classify

  const Branch: string := "├──"
  const FinalBranch: string := "└──"
  /** The indentation of every line below the root line. */
  const Lead: string := "   "

  /** `FINAL_BRANCH if is_last else BRANCH`. */
  function Connector(last: bool): string
  {
    if last then FinalBranch else Branch
  }

  /** What `build_lines` adds to the prefix below a child (main.py:197). */
  function Extension(last: bool): string
  {
    if last then "    " else "│   "
  }

  /** What the root loop adds below a top-level child (main.py:219). */
  function TopExtension(last: bool): string
  {
    if last then "       " else "│      "
  }

  /** The filesystem's answers for each path, as the colouring queries them. */
  type Look = string -> Classify.Meta

  function NameOf(c: Child): string
  {
    c.name
  }

  /** `sorted(node.items())`: the children by name. */
  function Sorted(n: Node): seq<Child>
  {
    SortBy(n.children, NameOf)
  }

  lemma SortedMembers(n: Node)
    ensures forall c :: c in Sorted(n) <==> c in n.children
  {
    forall c
      ensures c in Sorted(n) <==> c in n.children
    {
      assert c in Sorted(n) <==> c in multiset(Sorted(n));
      assert c in n.children <==> c in multiset(n.children);
    }
  }

  /** `f"{color}{name}{Colours.RESET}"`. */
  function Coloured(useColours: bool, look: Look, path: string, name: string): string
  {
    Classify.ColourFor(useColours, look(path), path) + name + Classify.Code(useColours, Classify.Reset)
  }

  // ---------------------------------------------------------------------
  // The lines as the program builds them, prefix by prefix.

  /** `build_lines(node, prefix, _, parent_path)` (main.py:183-200). */
  function BuildLines(n: Node, prefix: string, parent: string, useColours: bool, look: Look): seq<string>
    decreases n, 1
  {
    SortedMembers(n);
    Items(n, Sorted(n), prefix, parent, useColours, look)
  }

  /** The loop of `build_lines` over the sorted children still to come. */
  function Items(n: Node, cs: seq<Child>, prefix: string, parent: string, useColours: bool, look: Look): seq<string>
    requires forall c :: c in cs ==> c in n.children
    decreases n, 0, |cs|
  {
    if cs == [] then []
    else
      assert cs[0] in cs;
      assert cs[0] in n.children;
      var full := Paths.Join(parent, cs[0].name);
      [prefix + Connector(|cs| == 1) + Coloured(useColours, look, full, cs[0].name)]
      + BuildLines(cs[0].sub, prefix + Extension(|cs| == 1), full, useColours, look)
      + Items(n, cs[1..], prefix, parent, useColours, look)
  }

  /** The loop over the root's sorted children (main.py:209-220). */
  function RootItems(top: Node, cs: seq<Child>, root: string, useColours: bool, look: Look): seq<string>
    requires forall c :: c in cs ==> c in top.children
    decreases |cs|
  {
    if cs == [] then []
    else
      var full := Paths.Join(root, cs[0].name);
      [Lead + Connector(|cs| == 1) + Coloured(useColours, look, full, cs[0].name)]
      + BuildLines(cs[0].sub, Lead + TopExtension(|cs| == 1), full, useColours, look)
      + RootItems(top, cs[1..], root, useColours, look)
  }

  /** The lines of the whole dictionary (main.py:202-221). */
  function TreeLines(b: Built, useColours: bool, look: Look): seq<string>
  {
    match b
    case Empty => []
    case Rooted(root, top) =>
      SortedMembers(top);
      [Coloured(useColours, look, root, root)] + RootItems(top, Sorted(top), root, useColours, look)
  }

  /** `"\n".join(lines)`. */
  function JoinLines(ls: seq<string>): string
  {
    if ls == [] then "" else Paths.JoinSegs(ls, '\n')
  }

  /** `format_tree(paths)`, with the colour setting and the filesystem's
      answers as inputs. */
  function FormatTree(paths: seq<string>, useColours: bool, look: Look): string
  {
    JoinLines(TreeLines(Build(paths), useColours, look))
  }

  // ---------------------------------------------------------------------
  // The same lines described node by node.

  /** One node of the dictionary as it is listed: the names of its ancestors
      below the root, its own name, whether each ancestor is the last of its
      siblings, whether it is, and its full path. */
  datatype Item = Item(above: seq<string>, name: string, ancestors: seq<bool>, last: bool, path: string)

  /** The names leading from the root to the node. */
  function Segs(it: Item): seq<string>
  {
    it.above + [it.name]
  }

  /** The nodes below `n` in the order they are listed: each child, then
      everything below it, children sorted by name. `above` and `ancestors`
      describe `n` itself. */
  function Outline(n: Node, above: seq<string>, ancestors: seq<bool>, parent: string): seq<Item>
    decreases n, 1
  {
    SortedMembers(n);
    OutlineOf(n, Sorted(n), above, ancestors, parent)
  }

  function OutlineOf(n: Node, cs: seq<Child>, above: seq<string>, ancestors: seq<bool>, parent: string): seq<Item>
    requires forall c :: c in cs ==> c in n.children
    decreases n, 0, |cs|
  {
    if cs == [] then []
    else
      assert cs[0] in cs;
      assert cs[0] in n.children;
      var full := Paths.Join(parent, cs[0].name);
      [Item(above, cs[0].name, ancestors, |cs| == 1, full)]
      + Outline(cs[0].sub, above + [cs[0].name], ancestors + [|cs| == 1], full)
      + OutlineOf(n, cs[1..], above, ancestors, parent)
  }

  /** The indentation of a line whose ancestors below the root have the given
      last-sibling flags: the lead, then one column per ancestor, a blank one
      below a last sibling and a vertical line otherwise; the first column is
      wider. */
  function Indent(ancestors: seq<bool>): string
  {
    if ancestors == [] then Lead else Lead + TopExtension(ancestors[0]) + Columns(ancestors[1..])
  }

  function Columns(fs: seq<bool>): string
  {
    if fs == [] then "" else Extension(fs[0]) + Columns(fs[1..])
  }

  /** The text of one listed node. */
  function Render(it: Item, useColours: bool, look: Look): string
  {
    Indent(it.ancestors) + Connector(it.last) + Coloured(useColours, look, it.path, it.name)
  }

  function RenderAll(items: seq<Item>, useColours: bool, look: Look): seq<string>
  {
    if items == [] then [] else [Render(items[0], useColours, look)] + RenderAll(items[1..], useColours, look)
  }

  lemma {:induction false} RenderAllAppend(a: seq<Item>, b: seq<Item>, useColours: bool, look: Look)
    ensures RenderAll(a + b, useColours, look) == RenderAll(a, useColours, look) + RenderAll(b, useColours, look)
  {
    if a == [] {
      assert a + b == b;
    } else {
      assert (a + b)[1..] == a[1..] + b;
      RenderAllAppend(a[1..], b, useColours, look);
    }
  }

  lemma {:induction false} ColumnsAppend(fs: seq<bool>, b: bool)
    ensures Columns(fs + [b]) == Columns(fs) + Extension(b)
  {
    if fs != [] {
      assert (fs + [b])[1..] == fs[1..] + [b];
      ColumnsAppend(fs[1..], b);
    }
  }

  /** Each level of `build_lines` adds one column to the prefix it inherits. */
  lemma IndentAppend(fs: seq<bool>, b: bool)
    ensures Indent(fs + [b]) == Indent(fs) + (if fs == [] then TopExtension(b) else Extension(b))
  {
    if fs != [] {
      assert (fs + [b])[1..] == fs[1..] + [b];
      ColumnsAppend(fs[1..], b);
    }
  }

  /** The prefix `build_lines` accumulates is the closed-form indentation of
      the node's ancestors, so the program's lines are the rendered outline. */
  lemma {:induction false} ItemsAreRendered(n: Node, cs: seq<Child>, above: seq<string>, ancestors: seq<bool>,
                                            parent: string, useColours: bool, look: Look)
    requires forall c :: c in cs ==> c in n.children
    requires |ancestors| >= 1
    ensures Items(n, cs, Indent(ancestors), parent, useColours, look)
            == RenderAll(OutlineOf(n, cs, above, ancestors, parent), useColours, look)
    decreases n, 0, |cs|
  {
    if cs != [] {
      var c := cs[0];
      assert c in cs;
      var last := |cs| == 1;
      var full := Paths.Join(parent, c.name);
      IndentAppend(ancestors, last);
      SortedMembers(c.sub);
      ItemsAreRendered(c.sub, Sorted(c.sub), above + [c.name], ancestors + [last], full, useColours, look);
      ItemsAreRendered(n, cs[1..], above, ancestors, parent, useColours, look);
      var head := Item(above, c.name, ancestors, last, full);
      var sub := Outline(c.sub, above + [c.name], ancestors + [last], full);
      var rest := OutlineOf(n, cs[1..], above, ancestors, parent);
      RenderAllAppend([head] + sub, rest, useColours, look);
      RenderAllAppend([head], sub, useColours, look);
    }
  }

  /** The same for the loop over the root's children, whose lines have no
      ancestor columns and whose subtrees start from the wider first column. */
  lemma {:induction false} RootItemsAreRendered(top: Node, cs: seq<Child>, root: string, useColours: bool, look: Look)
    requires forall c :: c in cs ==> c in top.children
    ensures RootItems(top, cs, root, useColours, look) == RenderAll(OutlineOf(top, cs, [], [], root), useColours, look)
    decreases |cs|
  {
    if cs != [] {
      var c := cs[0];
      var last := |cs| == 1;
      var full := Paths.Join(root, c.name);
      IndentAppend([], last);
      assert [] + [last] == [last] && [] + [c.name] == [c.name];
      SortedMembers(c.sub);
      ItemsAreRendered(c.sub, Sorted(c.sub), [c.name], [last], full, useColours, look);
      RootItemsAreRendered(top, cs[1..], root, useColours, look);
      var head := Item([], c.name, [], last, full);
      var sub := Outline(c.sub, [c.name], [last], full);
      var rest := OutlineOf(top, cs[1..], [], [], root);
      RenderAllAppend([head] + sub, rest, useColours, look);
      RenderAllAppend([head], sub, useColours, look);
    }
  }

  // ---------------------------------------------------------------------
  // What the outline lists.

  /** Every listed item sits below the names it was given, and the name right
      below them is one of the children listed. */
  lemma {:induction false} OutlineOfShape(n: Node, cs: seq<Child>, above: seq<string>, ancestors: seq<bool>, parent: string)
    requires forall c :: c in cs ==> c in n.children
    ensures forall it :: it in OutlineOf(n, cs, above, ancestors, parent) ==>
              |it.above| >= |above| && it.above[..|above|] == above && Segs(it)[|above|] in Names(cs)
    decreases n, 0, |cs|
  {
    if cs != [] {
      var c := cs[0];
      assert c in cs;
      var last := |cs| == 1;
      var full := Paths.Join(parent, c.name);
      var a := above + [c.name];
      SortedMembers(c.sub);
      OutlineOfShape(c.sub, Sorted(c.sub), a, ancestors + [last], full);
      OutlineOfShape(n, cs[1..], above, ancestors, parent);
      assert Names(cs) == [c.name] + Names(cs[1..]);
      forall it | it in Outline(c.sub, a, ancestors + [last], full)
        ensures |it.above| >= |above| && it.above[..|above|] == above && Segs(it)[|above|] == c.name
      {
        assert it.above[..|above|] == it.above[..|a|][..|above|];
        assert it.above[|above|] == it.above[..|a|][|above|];
      }
    }
  }

  /** The shape of a whole subtree's outline. */
  lemma OutlineShape(n: Node, above: seq<string>, ancestors: seq<bool>, parent: string)
    ensures forall it :: it in Outline(n, above, ancestors, parent) ==>
              |it.above| >= |above| && it.above[..|above|] == above
  {
    SortedMembers(n);
    OutlineOfShape(n, Sorted(n), above, ancestors, parent);
  }

  /** Every listed item's path, the one its colour is looked up under, is
      `parent` joined name by name with the names below `above`. */
  lemma {:induction false} OutlineOfPaths(n: Node, cs: seq<Child>, above: seq<string>, ancestors: seq<bool>, parent: string)
    requires forall c :: c in cs ==> c in n.children
    ensures forall it :: it in OutlineOf(n, cs, above, ancestors, parent) ==>
              |Segs(it)| > |above| && it.path == Paths.JoinAll(parent, Segs(it)[|above|..])
    decreases n, 0, |cs|
  {
    if cs != [] {
      var c := cs[0];
      assert c in cs;
      var last := |cs| == 1;
      var full := Paths.Join(parent, c.name);
      var a := above + [c.name];
      SortedMembers(c.sub);
      OutlineOfPaths(c.sub, Sorted(c.sub), a, ancestors + [last], full);
      OutlineOfShape(c.sub, Sorted(c.sub), a, ancestors + [last], full);
      OutlineOfPaths(n, cs[1..], above, ancestors, parent);
      var head := Item(above, c.name, ancestors, last, full);
      assert Segs(head)[|above|..] == [c.name];
      assert Paths.JoinAll(parent, [c.name]) == Paths.JoinAll(full, []);
      forall it | it in Outline(c.sub, a, ancestors + [last], full)
        ensures |Segs(it)| > |above| && it.path == Paths.JoinAll(parent, Segs(it)[|above|..])
      {
        PathThroughChild(it, above, c.name, parent);
      }
    }
  }

  /** An item listed below the child `name` of `parent` has its path joined
      through that child. */
  lemma PathThroughChild(it: Item, above: seq<string>, name: string, parent: string)
    requires |it.above| >= |above| + 1 && it.above[..|above| + 1] == above + [name]
    requires it.path == Paths.JoinAll(Paths.Join(parent, name), Segs(it)[|above| + 1..])
    ensures |Segs(it)| > |above| && it.path == Paths.JoinAll(parent, Segs(it)[|above|..])
  {
    var q := Segs(it)[|above| + 1..];
    assert Segs(it)[|above|] == name by {
      assert it.above[|above|] == it.above[..|above| + 1][|above|];
    }
    assert Segs(it)[|above|..] == [name] + q;
    assert ([name] + q)[1..] == q;
  }

  lemma OutlinePaths(n: Node, above: seq<string>, ancestors: seq<bool>, parent: string)
    ensures forall it :: it in Outline(n, above, ancestors, parent) ==>
              |Segs(it)| > |above| && it.path == Paths.JoinAll(parent, Segs(it)[|above|..])
  {
    SortedMembers(n);
    OutlineOfPaths(n, Sorted(n), above, ancestors, parent);
  }

  /** A path through a child is a path through its parent. */
  lemma HasThrough(n: Node, c: Child, q: seq<string>)
    requires Distinct(n.children) && c in n.children
    requires |q| >= 1 && q[0] == c.name && (|q| == 1 || Has(c.sub, q[1..]))
    ensures Has(n, q)
  {
    FindMember(n.children, c);
  }

  /** Every listed item is a node of the dictionary, reached from `n` by the
      names below `above`. */
  lemma {:induction false} OutlineOfSound(n: Node, cs: seq<Child>, above: seq<string>, ancestors: seq<bool>, parent: string)
    requires WellNamed(n)
    requires forall c :: c in cs ==> c in n.children
    ensures forall it :: it in OutlineOf(n, cs, above, ancestors, parent) ==>
              |Segs(it)| > |above| && Has(n, Segs(it)[|above|..])
    decreases n, 0, |cs|
  {
    if cs != [] {
      var c := cs[0];
      assert c in cs;
      var last := |cs| == 1;
      var full := Paths.Join(parent, c.name);
      var a := above + [c.name];
      var head := Item(above, c.name, ancestors, last, full);
      var sub := Outline(c.sub, a, ancestors + [last], full);
      assert WellNamed(c.sub);
      SortedMembers(c.sub);
      OutlineOfSound(c.sub, Sorted(c.sub), a, ancestors + [last], full);
      OutlineOfShape(c.sub, Sorted(c.sub), a, ancestors + [last], full);
      OutlineOfSound(n, cs[1..], above, ancestors, parent);
      assert Segs(head)[|above|..] == [c.name];
      HasThrough(n, c, [c.name]);
      forall it | it in sub
        ensures |Segs(it)| > |above| && Has(n, Segs(it)[|above|..])
      {
        var q := Segs(it)[|above|..];
        assert Segs(it)[..|a|] == a;
        assert q[1..] == Segs(it)[|a|..];
        HasThrough(n, c, q);
      }
    }
  }

  lemma OutlineSound(n: Node, above: seq<string>, ancestors: seq<bool>, parent: string)
    requires WellNamed(n)
    ensures forall it :: it in Outline(n, above, ancestors, parent) ==>
              |Segs(it)| > |above| && Has(n, Segs(it)[|above|..])
  {
    SortedMembers(n);
    OutlineOfSound(n, Sorted(n), above, ancestors, parent);
  }

  /** The `k`-th child is listed, as the last of its siblings exactly when it
      is the final one, and so is everything listed below it. */
  lemma {:induction false} OutlineOfContains(n: Node, cs: seq<Child>, above: seq<string>, ancestors: seq<bool>,
                                             parent: string, k: nat)
    requires forall c :: c in cs ==> c in n.children
    requires k < |cs|
    ensures var full := Paths.Join(parent, cs[k].name);
            Item(above, cs[k].name, ancestors, k == |cs| - 1, full) in OutlineOf(n, cs, above, ancestors, parent)
            && forall it :: it in Outline(cs[k].sub, above + [cs[k].name], ancestors + [k == |cs| - 1], full) ==>
                 it in OutlineOf(n, cs, above, ancestors, parent)
    decreases k
  {
    if k > 0 {
      OutlineOfContains(n, cs[1..], above, ancestors, parent, k - 1);
      assert cs[1..][k - 1] == cs[k];
    }
  }

  /** Every child of `n` is listed with some last-sibling flag, followed by
      the outline below it. */
  lemma ChildListed(n: Node, c: Child, above: seq<string>, ancestors: seq<bool>, parent: string) returns (last: bool)
    requires c in n.children
    ensures var full := Paths.Join(parent, c.name);
            Item(above, c.name, ancestors, last, full) in Outline(n, above, ancestors, parent)
            && forall it :: it in Outline(c.sub, above + [c.name], ancestors + [last], full) ==>
                 it in Outline(n, above, ancestors, parent)
  {
    SortedMembers(n);
    var cs := Sorted(n);
    var k :| 0 <= k < |cs| && cs[k] == c;
    last := k == |cs| - 1;
    OutlineOfContains(n, cs, above, ancestors, parent, k);
  }

  /** Every node of the dictionary is listed. */
  lemma {:induction false} OutlineComplete(n: Node, above: seq<string>, ancestors: seq<bool>, parent: string, qs: seq<string>)
    requires WellNamed(n) && Has(n, qs)
    ensures exists it :: it in Outline(n, above, ancestors, parent) && Segs(it) == above + qs
    decreases n
  {
    var v := Find(n.children, qs[0]).value;
    var c := Child(qs[0], v);
    FindSome(n.children, qs[0]);
    var last := ChildListed(n, c, above, ancestors, parent);
    var full := Paths.Join(parent, c.name);
    if |qs| == 1 {
      var it := Item(above, c.name, ancestors, last, full);
      assert Segs(it) == above + qs;
    } else {
      ConsSplit(above, qs);
      assert WellNamed(v) && Has(v, qs[1..]);
      OutlineComplete(v, above + [qs[0]], ancestors + [last], full, qs[1..]);
      var it :| it in Outline(v, above + [qs[0]], ancestors + [last], full) && Segs(it) == above + [qs[0]] + qs[1..];
      assert it in Outline(n, above, ancestors, parent);
    }
  }

  lemma ConsSplit(above: seq<string>, qs: seq<string>)
    requires qs != []
    ensures above + [qs[0]] + qs[1..] == above + qs
  {
    assert qs == [qs[0]] + qs[1..];
  }

  /** No two items reach the same node. */
  ghost predicate DistinctSegs(items: seq<Item>)
  {
    forall i, j :: 0 <= i < j < |items| ==> Segs(items[i]) != Segs(items[j])
  }

  lemma DistinctSegsAppend(a: seq<Item>, b: seq<Item>)
    requires DistinctSegs(a) && DistinctSegs(b)
    requires forall x, y :: x in a && y in b ==> Segs(x) != Segs(y)
    ensures DistinctSegs(a + b)
  {
    forall i, j | 0 <= i < j < |a + b|
      ensures Segs((a + b)[i]) != Segs((a + b)[j])
    {
      if j < |a| {
      } else if i >= |a| {
        assert (a + b)[i] == b[i - |a|] && (a + b)[j] == b[j - |a|];
      } else {
        assert (a + b)[i] in a && (a + b)[j] in b;
      }
    }
  }

  lemma DistinctNamesDistinctKeys(cs: seq<Child>)
    ensures Distinct(cs) <==> DistinctKeys(cs, NameOf)
  {
  }

  /** The children in listed order still have distinct names. */
  lemma SortedDistinct(n: Node)
    requires WellNamed(n)
    ensures DistinctKeys(Sorted(n), NameOf) && StrictlySortedBy(Sorted(n), NameOf)
    ensures forall c :: c in Sorted(n) ==> WellNamed(c.sub)
  {
    DistinctNamesDistinctKeys(n.children);
    SortByDistinctKeys(n.children, NameOf);
    SortedMembers(n);
  }

  lemma {:induction false} OutlineOfDistinct(n: Node, cs: seq<Child>, above: seq<string>, ancestors: seq<bool>, parent: string)
    requires forall c :: c in cs ==> c in n.children
    requires DistinctKeys(cs, NameOf)
    requires forall c :: c in cs ==> WellNamed(c.sub)
    ensures DistinctSegs(OutlineOf(n, cs, above, ancestors, parent))
    decreases n, 0, |cs|
  {
    if cs != [] {
      var c := cs[0];
      assert c in cs;
      var last := |cs| == 1;
      var full := Paths.Join(parent, c.name);
      var a := above + [c.name];
      var head := Item(above, c.name, ancestors, last, full);
      var sub := Outline(c.sub, a, ancestors + [last], full);
      var rest := OutlineOf(n, cs[1..], above, ancestors, parent);
      SortedDistinct(c.sub);
      SortedMembers(c.sub);
      OutlineOfDistinct(c.sub, Sorted(c.sub), a, ancestors + [last], full);
      OutlineShape(c.sub, a, ancestors + [last], full);
      DistinctSegsAppend([head], sub);
      assert forall x :: x in [head] + sub ==> Segs(x)[|above|] == c.name by {
        forall x | x in [head] + sub
          ensures Segs(x)[|above|] == c.name
        {
          if x != head {
            assert x in sub;
            assert x.above[|above|] == x.above[..|a|][|above|];
          }
        }
      }
      assert DistinctKeys(cs[1..], NameOf) by {
        forall i, j | 0 <= i < j < |cs[1..]|
          ensures NameOf(cs[1..][i]) != NameOf(cs[1..][j])
        {
          assert cs[1..][i] == cs[i + 1] && cs[1..][j] == cs[j + 1];
        }
      }
      OutlineOfDistinct(n, cs[1..], above, ancestors, parent);
      OutlineOfShape(n, cs[1..], above, ancestors, parent);
      NamesMembers(cs[1..]);
      assert c.name !in Names(cs[1..]) by {
        forall i | 0 <= i < |Names(cs[1..])|
          ensures Names(cs[1..])[i] != c.name
        {
          assert cs[1..][i] == cs[i + 1];
          assert NameOf(cs[0]) != NameOf(cs[i + 1]);
        }
      }
      DistinctSegsAppend([head] + sub, rest);
    }
  }

  /** Every node is listed once. */
  lemma OutlineDistinct(n: Node, above: seq<string>, ancestors: seq<bool>, parent: string)
    requires WellNamed(n)
    ensures DistinctSegs(Outline(n, above, ancestors, parent))
  {
    SortedDistinct(n);
    SortedMembers(n);
    OutlineOfDistinct(n, Sorted(n), above, ancestors, parent);
  }

  // ---------------------------------------------------------------------
  // Siblings.

  /** The items at depth `d`, in listed order. */
  function Level(items: seq<Item>, d: nat): seq<Item>
  {
    if items == [] then []
    else if |items[0].above| == d then [items[0]] + Level(items[1..], d)
    else Level(items[1..], d)
  }

  lemma {:induction false} LevelAppend(a: seq<Item>, b: seq<Item>, d: nat)
    ensures Level(a + b, d) == Level(a, d) + Level(b, d)
  {
    if a == [] {
      assert a + b == b;
    } else {
      assert (a + b)[0] == a[0];
      assert (a + b)[1..] == a[1..] + b;
      LevelAppend(a[1..], b, d);
    }
  }

  lemma {:induction false} LevelDeeper(items: seq<Item>, d: nat)
    requires forall it :: it in items ==> |it.above| > d
    ensures Level(items, d) == []
  {
    if items != [] {
      assert items[0] in items;
      LevelDeeper(items[1..], d);
    }
  }

  /** The lines of a list of siblings themselves, without what is below them. */
  function Heads(cs: seq<Child>, above: seq<string>, ancestors: seq<bool>, parent: string): seq<Item>
  {
    if cs == [] then []
    else [Item(above, cs[0].name, ancestors, |cs| == 1, Paths.Join(parent, cs[0].name))]
         + Heads(cs[1..], above, ancestors, parent)
  }

  lemma {:induction false} HeadsAt(cs: seq<Child>, above: seq<string>, ancestors: seq<bool>, parent: string)
    ensures |Heads(cs, above, ancestors, parent)| == |cs|
    ensures forall i :: 0 <= i < |cs| ==>
              Heads(cs, above, ancestors, parent)[i]
              == Item(above, cs[i].name, ancestors, i == |cs| - 1, Paths.Join(parent, cs[i].name))
  {
    if cs != [] {
      HeadsAt(cs[1..], above, ancestors, parent);
      forall i | 1 <= i < |cs|
        ensures Heads(cs, above, ancestors, parent)[i]
                == Item(above, cs[i].name, ancestors, i == |cs| - 1, Paths.Join(parent, cs[i].name))
      {
        assert cs[1..][i - 1] == cs[i];
      }
    }
  }

  /** At the depth of the children, the outline lists exactly the children. */
  lemma {:induction false} OutlineOfLevel(n: Node, cs: seq<Child>, above: seq<string>, ancestors: seq<bool>, parent: string)
    requires forall c :: c in cs ==> c in n.children
    ensures Level(OutlineOf(n, cs, above, ancestors, parent), |above|) == Heads(cs, above, ancestors, parent)
    decreases |cs|
  {
    if cs != [] {
      var c := cs[0];
      assert c in cs;
      var last := |cs| == 1;
      var full := Paths.Join(parent, c.name);
      var head := Item(above, c.name, ancestors, last, full);
      var sub := Outline(c.sub, above + [c.name], ancestors + [last], full);
      var rest := OutlineOf(n, cs[1..], above, ancestors, parent);
      OutlineShape(c.sub, above + [c.name], ancestors + [last], full);
      LevelDeeper(sub, |above|);
      OutlineOfLevel(n, cs[1..], above, ancestors, parent);
      LevelAppend([head] + sub, rest, |above|);
      LevelAppend([head], sub, |above|);
    }
  }

  /** The children of a node are listed in strictly ascending order of name,
      each once, and only the final one is drawn with the closing connector. */
  lemma Siblings(n: Node, above: seq<string>, ancestors: seq<bool>, parent: string)
    requires WellNamed(n)
    ensures var sib := Level(Outline(n, above, ancestors, parent), |above|);
            |sib| == |n.children|
            && (forall i :: 0 <= i < |sib| ==>
                  sib[i].above == above && sib[i].ancestors == ancestors
                  && (sib[i].last <==> i == |sib| - 1) && sib[i].path == Paths.Join(parent, sib[i].name))
            && (forall i, j :: 0 <= i < j < |sib| ==> Less(sib[i].name, sib[j].name))
            && (forall c :: c in n.children ==> exists i :: 0 <= i < |sib| && sib[i].name == c.name)
  {
    SortedMembers(n);
    SortedDistinct(n);
    var cs := Sorted(n);
    OutlineOfLevel(n, cs, above, ancestors, parent);
    HeadsAt(cs, above, ancestors, parent);
    var sib := Heads(cs, above, ancestors, parent);
    forall c | c in n.children
      ensures exists i :: 0 <= i < |sib| && sib[i].name == c.name
    {
      assert c in cs;
      var i :| 0 <= i < |cs| && cs[i] == c;
      assert sib[i].name == c.name;
    }
    forall i, j | 0 <= i < j < |sib|
      ensures Less(sib[i].name, sib[j].name)
    {
      assert NameOf(cs[i]) == sib[i].name && NameOf(cs[j]) == sib[j].name;
    }
  }

  // ---------------------------------------------------------------------
  // The whole text.

  /** `format_tree` of no paths is the empty string; otherwise its lines are
      the root followed by one rendered line per listed node, and splitting
      the text at newlines gives the lines back when no name holds a newline. */
  lemma FormatTreeLines(paths: seq<string>, useColours: bool, look: Look)
    ensures paths == [] ==> FormatTree(paths, useColours, look) == ""
    ensures paths != [] ==>
              var b := Build(paths);
              var items := Outline(b.top, [], [], b.root);
              TreeLines(b, useColours, look)
              == [Coloured(useColours, look, b.root, b.root)] + RenderAll(items, useColours, look)
  {
    if paths != [] {
      var b := Build(paths);
      SortedMembers(b.top);
      RootItemsAreRendered(b.top, Sorted(b.top), b.root, useColours, look);
    }
  }

  /** The printed text splits back into its lines when none holds a newline. */
  lemma TextSplitsIntoLines(ls: seq<string>)
    requires ls != []
    requires forall i :: 0 <= i < |ls| ==> Paths.SepFree(ls[i], '\n')
    ensures Paths.Split(JoinLines(ls), '\n') == ls
  {
    Paths.SplitJoinSegs(ls, '\n');
  }

  /** With colours off a line is its indentation, its connector and the bare
      name: no escape sequence reaches the output. */
  lemma PlainWhenColoursOff(it: Item, look: Look)
    ensures Render(it, false, look) == Indent(it.ancestors) + Connector(it.last) + it.name
  {
  }

  /** For a list of canonical paths containing their root, the outline below
      the root line lists every other path once, by its segments and coloured
      under that very path, and nothing that is not a leading part of some
      listed path. */
  lemma TreeListsPaths(paths: seq<string>, root: string)
    requires root in paths
    requires forall p :: p in paths ==> Canonical(root, p)
    ensures Build(paths).Rooted? && Build(paths).root == root
    ensures var items := Outline(Build(paths).top, [], [], root);
            && (forall p :: p in paths && p != root ==> exists it :: it in items && Segs(it) == Parts(root, p) && it.path == p)
            && (forall it :: it in items ==> exists p :: p in paths && p != root && IsPrefix(Segs(it), Parts(root, p)))
            && DistinctSegs(items)
  {
    BuildComplete(paths, root);
    var top := Build(paths).top;
    BuildWellNamed(paths);
    var items := Outline(top, [], [], root);
    OutlinePaths(top, [], [], root);
    forall p | p in paths && p != root
      ensures exists it :: it in items && Segs(it) == Parts(root, p) && it.path == p
    {
      OutlineComplete(top, [], [], root, Parts(root, p));
      assert [] + Parts(root, p) == Parts(root, p);
      var it :| it in items && Segs(it) == Parts(root, p);
      assert Segs(it)[0..] == Segs(it);
      CanonicalJoinAll(root, p);
    }
    OutlineSound(top, [], [], root);
    forall it | it in items
      ensures exists p :: p in paths && p != root && IsPrefix(Segs(it), Parts(root, p))
    {
      assert Segs(it)[0..] == Segs(it);
      BuildProvenance(paths, Segs(it));
    }
    OutlineDistinct(top, [], [], root);
  }
}
