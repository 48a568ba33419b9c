/** The POSIX path-string operations the lister relies on: `os.path.join` of two
    components, `str.lstrip('/')`, `str.split('/')` with `'/'.join` as its inverse,
    `os.path.splitext` and an ASCII `str.lower`. */
module Paths {

  /** `os.path.join(a, b)` on POSIX: an absolute `b` replaces `a`; otherwise a
      separator is inserted unless `a` is empty or already ends with one. A
      directory listing's `entry.path` is this join of the listed directory and
      the entry's (slash-free) name. */
  function Join(a: string, b: string): string
  {
    if |b| > 0 && b[0] == '/' then b
    else if a == [] || a[|a| - 1] == '/' then a + b
    else a + "/" + b
  }

  /** `os.path.join(root, s1, s2, ...)` for a sequence of components. */
  function JoinAll(root: string, segs: seq<string>): string
    decreases |segs|
  {
    if segs == [] then root else JoinAll(Join(root, segs[0]), segs[1..])
  }

  /** Joining non-empty, slash-free components one by one is joining the root
      with their `'/'.join`. */
  lemma {:induction false} JoinAllSegs(root: string, segs: seq<string>)
    requires |segs| >= 1
    requires forall i :: 0 <= i < |segs| ==> segs[i] != [] && SepFree(segs[i], '/')
    ensures JoinAll(root, segs) == Join(root, JoinSegs(segs, '/'))
    decreases |segs|
  {
    if |segs| > 1 {
      var s, rest := segs[0], segs[1..];
      assert forall i :: 0 <= i < |rest| ==> rest[i] == segs[i + 1];
      JoinAllSegs(Join(root, s), rest);
      var t := JoinSegs(rest, '/');
      JoinSegsStartsWithFirst(rest);
      assert rest[0] == segs[1] && rest[0] != [] && SepFree(rest[0], '/');
      assert t[0] == rest[0][0];
      JoinStep(root, s, t);
    }
  }

  /** Joining `s` and then `t` is joining `s + "/" + t` at once, for a
      non-empty slash-free `s` and a relative `t`. */
  lemma JoinStep(root: string, s: string, t: string)
    requires s != [] && SepFree(s, '/')
    requires t != [] && t[0] != '/'
    ensures Join(Join(root, s), t) == Join(root, s + "/" + t)
  {
    var r := Join(root, s);
    assert r[|r| - 1] == s[|s| - 1];
    assert (s + "/" + t)[0] == s[0];
    if root == [] || root[|root| - 1] == '/' {
      assert r + "/" + t == root + (s + "/" + t);
    } else {
      assert r + "/" + t == root + "/" + (s + "/" + t);
    }
  }

  /** The `'/'`-joined text starts with the first segment. */
  lemma JoinSegsStartsWithFirst(segs: seq<string>)
    requires |segs| >= 1
    ensures |JoinSegs(segs, '/')| >= |segs[0]| && JoinSegs(segs, '/')[..|segs[0]|] == segs[0]
  {
  }

  /** `s.lstrip('/')`. */
  function LStripSlash(s: string): (r: string)
    ensures |r| <= |s| && r == s[|s| - |r|..]
    ensures r == [] || r[0] != '/'
    ensures forall k :: 0 <= k < |s| - |r| ==> s[k] == '/'
  {
    if s != [] && s[0] == '/' then LStripSlash(s[1..]) else s
  }

  /** Python slicing `s[n:]` for a non-negative `n`: empty once `n` passes the end. */
  function DropPrefix(s: string, n: nat): (r: string)
    ensures n <= |s| ==> r == s[n..]
    ensures n > |s| ==> r == []
  {
    if n <= |s| then s[n..] else []
  }

  /** `sep.join(segs)` for a non-empty list of segments. */
  function JoinSegs(segs: seq<string>, sep: char): string
    requires |segs| >= 1
    decreases |segs|
  {
    if |segs| == 1 then segs[0] else segs[0] + [sep] + JoinSegs(segs[1..], sep)
  }

  /** `s` holds no `sep`. */
  predicate SepFree(s: string, sep: char)
  {
    forall k :: 0 <= k < |s| ==> s[k] != sep
  }

  /** `s.split(sep)`: never empty, no segment holds a separator, and joining
      the segments back gives `s` again. */
  function Split(s: string, sep: char): (r: seq<string>)
    ensures |r| >= 1
    ensures forall i :: 0 <= i < |r| ==> SepFree(r[i], sep)
    ensures JoinSegs(r, sep) == s
    decreases |s|
  {
    if s == [] then [[]]
    else
      var rest := Split(s[1..], sep);
      if s[0] == sep then
        assert s == [sep] + s[1..];
        [[]] + rest
      else
        var r := [[s[0]] + rest[0]] + rest[1..];
        assert r[1..] == rest[1..];
        assert s == [s[0]] + s[1..];
        r
  }

  /** Splitting a separator-free string gives it back as the only segment. */
  lemma {:induction false} SplitSepFree(a: string, sep: char)
    requires SepFree(a, sep)
    ensures Split(a, sep) == [a]
    decreases |a|
  {
    if a != [] {
      SplitSepFree(a[1..], sep);
      assert a == [a[0]] + a[1..];
    }
  }

  /** Splitting `a + [sep] + t` for a separator-free `a` peels `a` off the front. */
  lemma {:induction false} SplitCons(a: string, t: string, sep: char)
    requires SepFree(a, sep)
    ensures Split(a + [sep] + t, sep) == [a] + Split(t, sep)
    decreases |a|
  {
    var s := a + [sep] + t;
    if a == [] {
      assert s[1..] == t;
    } else {
      assert s[1..] == a[1..] + [sep] + t;
      SplitCons(a[1..], t, sep);
      assert [a[0]] + a[1..] == a;
    }
  }

  /** `sep.join` and `split(sep)` are inverse on lists of separator-free segments. */
  lemma {:induction false} SplitJoinSegs(segs: seq<string>, sep: char)
    requires |segs| >= 1
    requires forall i :: 0 <= i < |segs| ==> SepFree(segs[i], sep)
    ensures Split(JoinSegs(segs, sep), sep) == segs
    decreases |segs|
  {
    if |segs| == 1 {
      SplitSepFree(segs[0], sep);
    } else {
      SplitJoinSegs(segs[1..], sep);
      SplitCons(segs[0], JoinSegs(segs[1..], sep), sep);
      assert segs == [segs[0]] + segs[1..];
    }
  }

  /** Joining a concatenation of segment lists puts one separator between the halves. */
  lemma {:induction false} JoinSegsAppend(a: seq<string>, b: seq<string>, sep: char)
    requires |a| >= 1 && |b| >= 1
    ensures JoinSegs(a + b, sep) == JoinSegs(a, sep) + [sep] + JoinSegs(b, sep)
    decreases |a|
  {
    if |a| == 1 {
      assert (a + b)[1..] == b;
    } else {
      assert (a + b)[1..] == a[1..] + b;
      JoinSegsAppend(a[1..], b, sep);
    }
  }

  /** The joined text ends with the last segment. */
  lemma {:induction false} JoinSegsEndsWithLast(segs: seq<string>, sep: char)
    requires |segs| >= 1
    ensures var j, l := JoinSegs(segs, sep), segs[|segs| - 1];
            |l| <= |j| && j[|j| - |l|..] == l
    decreases |segs|
  {
    if |segs| > 1 {
      JoinSegsEndsWithLast(segs[1..], sep);
      var t := JoinSegs(segs[1..], sep);
      var l := segs[|segs| - 1];
      assert segs[1..][|segs[1..]| - 1] == l;
      assert (segs[0] + [sep] + t)[|segs[0] + [sep] + t| - |l|..] == t[|t| - |l|..];
    }
  }

  /** Splitting `a + [sep] + b` for a separator-free `b` puts `b` last. */
  lemma SplitSnoc(a: string, b: string, sep: char)
    requires SepFree(b, sep)
    ensures Split(a + [sep] + b, sep) == Split(a, sep) + [b]
  {
    var sa := Split(a, sep);
    JoinSegsAppend(sa, [b], sep);
    SplitJoinSegs(sa + [b], sep);
  }

  /** `s.rfind(c)`: the last index holding `c`, or -1. */
  function RFind(s: string, c: char): (r: int)
    ensures -1 <= r < |s|
    ensures r >= 0 ==> s[r] == c
    ensures forall k :: r < k < |s| ==> s[k] != c
    decreases |s|
  {
    if s == [] then -1
    else if s[|s| - 1] == c then |s| - 1
    else RFind(s[..|s| - 1], c)
  }

  /** `os.path.splitext(p)` on POSIX: the extension starts at the last dot of the
      last path component, unless only dots precede it in that component (so
      `.bashrc` and `..` have no extension). */
  function SplitExt(p: string): (string, string)
  {
    var sep := RFind(p, '/');
    var dot := RFind(p, '.');
    if sep < dot && exists k :: sep < k < dot && p[k] != '.' then (p[..dot], p[dot..])
    else (p, [])
  }

  /** The two parts of `splitext` concatenate to the path; a non-empty
      extension is one dot followed by neither dots nor separators, preceded in
      its component by something other than dots; and every path whose last
      component has a dot after such a character has an extension. */
  lemma SplitExtSpec(p: string)
    ensures var r := SplitExt(p); r.0 + r.1 == p
    ensures var r := SplitExt(p); r.1 != [] ==> r.1[0] == '.' && SepFree(r.1, '/')
    ensures var r := SplitExt(p); r.1 != [] ==> forall k :: 1 <= k < |r.1| ==> r.1[k] != '.'
    ensures var r := SplitExt(p); r.1 != [] ==> exists k :: 0 <= k < |r.0| && r.0[k] != '.' && SepFree(r.0[k..], '/')
    ensures (exists k, d :: 0 <= k < d < |p| && p[k] != '.' && p[d] == '.' && SepFree(p[k..], '/')) ==> SplitExt(p).1 != []
  {
    var sep := RFind(p, '/');
    var dot := RFind(p, '.');
    if sep < dot && exists k :: sep < k < dot && p[k] != '.' {
      var k :| sep < k < dot && p[k] != '.';
      assert p[..dot][k..] == p[k..dot];
      assert p[..dot] + p[dot..] == p;
    } else {
      assert forall k, d :: 0 <= k < d < |p| && p[k] != '.' && p[d] == '.' && SepFree(p[k..], '/') ==> sep < k;
    }
  }

  /** Searching a concatenation finds the last hit in the second part, if
      any, and otherwise the last hit in the first. */
  lemma {:induction false} RFindAppend(a: string, b: string, c: char)
    ensures RFind(a + b, c) == if RFind(b, c) >= 0 then |a| + RFind(b, c) else RFind(a, c)
    decreases |b|
  {
    if b == [] {
      assert a + b == a;
    } else if b[|b| - 1] != c {
      assert (a + b)[..|a + b| - 1] == a + b[..|b| - 1];
      RFindAppend(a, b[..|b| - 1], c);
    }
  }

  /** Where the last separator and the last dot of `dir/name` lie, for a
      slash-free `name`. */
  lemma LastComponentIndices(dir: string, name: string)
    requires SepFree(name, '/')
    ensures RFind(dir + "/" + name, '/') == |dir|
    ensures RFind(name, '.') >= 0 ==> RFind(dir + "/" + name, '.') == |dir| + 1 + RFind(name, '.')
    ensures RFind(name, '.') < 0 ==> RFind(dir + "/" + name, '.') < |dir|
  {
    var head := dir + "/";
    assert dir + "/" + name == head + name;
    RFindAppend(head, name, '/');
    RFindAppend(head, name, '.');
    RFindAppend(dir, "/", '/');
    RFindAppend(dir, "/", '.');
    assert RFind(name, '/') == -1;
  }

  /** `splitext` reads the extension from the last path component alone. */
  lemma SplitExtLastComponent(dir: string, name: string)
    requires SepFree(name, '/')
    ensures SplitExt(dir + "/" + name).1 == SplitExt(name).1
  {
    var p := dir + "/" + name;
    var off := |dir| + 1;
    LastComponentIndices(dir, name);
    var dn := RFind(name, '.');
    assert p[off..] == name;
    if dn >= 0 {
      var inP := exists k :: off - 1 < k < off + dn && p[k] != '.';
      var inN := exists k :: -1 < k < dn && name[k] != '.';
      if inN {
        var k :| -1 < k < dn && name[k] != '.';
        assert p[off + k] == name[k];
      }
      if inP {
        var k :| off - 1 < k < off + dn && p[k] != '.';
        assert p[k] == name[k - off];
      }
      assert p[off + dn..] == name[dn..];
    }
  }

  /** ASCII `str.lower`: maps `A`..`Z` to `a`..`z` and leaves every other character. */
  function Lower(s: string): (r: string)
    ensures |r| == |s|
    ensures forall k :: 0 <= k < |s| ==> r[k] == if 'A' <= s[k] <= 'Z' then (s[k] as int + 32) as char else s[k]
  {
    if s == [] then []
    else [if 'A' <= s[0] <= 'Z' then (s[0] as int + 32) as char else s[0]] + Lower(s[1..])
  }
}
