/** Python's ordering of `str` values (code-point lexicographic order) and the
    `sorted` built-in on lists, modelled as a key-directed insertion sort.
    Dafny's own `<` on sequences means "proper prefix", so the order is defined here. */
module Order {

  /** `a <= b` for Python strings: compare code points left to right; a proper
      prefix sorts first. */
  predicate LessEq(a: string, b: string)
    decreases |a|
  {
    |a| == 0 || (|b| > 0 && (a[0] < b[0] || (a[0] == b[0] && LessEq(a[1..], b[1..]))))
  }

  /** `a < b` for Python strings. */
  predicate Less(a: string, b: string)
  {
    LessEq(a, b) && a != b
  }

  lemma {:induction false} LessEqRefl(a: string)
    ensures LessEq(a, a)
    decreases |a|
  {
    if |a| > 0 {
      LessEqRefl(a[1..]);
    }
  }

  lemma {:induction false} LessEqAntisym(a: string, b: string)
    requires LessEq(a, b) && LessEq(b, a)
    ensures a == b
    decreases |a|
  {
    if |a| > 0 {
      LessEqAntisym(a[1..], b[1..]);
      assert a == [a[0]] + a[1..];
      assert b == [b[0]] + b[1..];
    }
  }

  lemma {:induction false} LessEqTrans(a: string, b: string, c: string)
    requires LessEq(a, b) && LessEq(b, c)
    ensures LessEq(a, c)
    decreases |a|
  {
    if |a| > 0 && a[0] == b[0] && b[0] == c[0] {
      LessEqTrans(a[1..], b[1..], c[1..]);
    }
  }

  lemma {:induction false} LessEqTotal(a: string, b: string)
    ensures LessEq(a, b) || LessEq(b, a)
    decreases |a|
  {
    if |a| > 0 && |b| > 0 && a[0] == b[0] {
      LessEqTotal(a[1..], b[1..]);
    }
  }

  /** A string sorts no later than every string it is a prefix of. */
  lemma {:induction false} PrefixLessEq(a: string, b: string)
    requires |a| <= |b| && b[..|a|] == a
    ensures LessEq(a, b)
    decreases |a|
  {
    if |a| > 0 {
      assert a[0] == b[0];
      assert b[1..][..|a[1..]|] == a[1..];
      PrefixLessEq(a[1..], b[1..]);
    }
  }

  /** A proper prefix sorts strictly first. */
  lemma ProperPrefixLess(a: string, b: string)
    requires |a| < |b| && b[..|a|] == a
    ensures Less(a, b)
  {
    PrefixLessEq(a, b);
  }

  /** Ascending by key (non-strict). */
  ghost predicate SortedBy<T>(xs: seq<T>, key: T -> string)
  {
    forall i, j :: 0 <= i < j < |xs| ==> LessEq(key(xs[i]), key(xs[j]))
  }

  /** Ascending by key with no two equal keys. */
  ghost predicate StrictlySortedBy<T>(xs: seq<T>, key: T -> string)
  {
    forall i, j :: 0 <= i < j < |xs| ==> Less(key(xs[i]), key(xs[j]))
  }

  function Id(s: string): string { s }

  /** A sorted list stays sorted under a new head that sorts no later than
      any of its elements. */
  lemma ConsSorted<T>(y: T, rest: seq<T>, key: T -> string)
    requires SortedBy(rest, key)
    requires forall j :: 0 <= j < |rest| ==> LessEq(key(y), key(rest[j]))
    ensures SortedBy([y] + rest, key)
  {
    forall i, j | 0 <= i < j < |[y] + rest|
      ensures LessEq(key(([y] + rest)[i]), key(([y] + rest)[j]))
    {
      if i > 0 {
        assert ([y] + rest)[i] == rest[i - 1];
      }
      assert ([y] + rest)[j] == rest[j - 1];
    }
  }

  /** Places `x` before the first element whose key is not below it. */
  function InsertBy<T>(x: T, xs: seq<T>, key: T -> string): (r: seq<T>)
    requires SortedBy(xs, key)
    ensures SortedBy(r, key)
    ensures multiset(r) == multiset(xs) + multiset{x}
    ensures |r| == |xs| + 1
  {
    if xs == [] then [x]
    else if LessEq(key(x), key(xs[0])) then
      assert forall j :: 0 <= j < |xs| ==> LessEq(key(x), key(xs[j])) by {
        forall j | 0 <= j < |xs|
          ensures LessEq(key(x), key(xs[j]))
        {
          if j > 0 { LessEqTrans(key(x), key(xs[0]), key(xs[j])); }
        }
      }
      ConsSorted(x, xs, key);
      [x] + xs
    else
      LessEqTotal(key(x), key(xs[0]));
      SortedTail(xs, key);
      var rest := InsertBy(x, xs[1..], key);
      assert xs == [xs[0]] + xs[1..];
      assert forall j :: 0 <= j < |rest| ==> LessEq(key(xs[0]), key(rest[j])) by {
        forall j | 0 <= j < |rest|
          ensures LessEq(key(xs[0]), key(rest[j]))
        {
          assert rest[j] in multiset(rest);
          if rest[j] != x {
            assert rest[j] in multiset(xs[1..]);
            var k :| 0 <= k < |xs[1..]| && xs[1..][k] == rest[j];
            assert LessEq(key(xs[0]), key(xs[k + 1]));
          }
        }
      }
      ConsSorted(xs[0], rest, key);
      [xs[0]] + rest
  }

  /** Python's `sorted(xs, key=key)`: a permutation of `xs`, ascending by key. */
  function SortBy<T>(xs: seq<T>, key: T -> string): (r: seq<T>)
    ensures SortedBy(r, key)
    ensures multiset(r) == multiset(xs)
    ensures |r| == |xs|
  {
    if xs == [] then []
    else
      assert xs == [xs[0]] + xs[1..];
      InsertBy(xs[0], SortBy(xs[1..], key), key)
  }

  /** `sorted` on a list of strings. */
  function Sort(xs: seq<string>): (r: seq<string>)
    ensures SortedBy(r, Id)
    ensures multiset(r) == multiset(xs)
  {
    SortBy(xs, Id)
  }

  lemma SortedTail<T>(xs: seq<T>, key: T -> string)
    requires SortedBy(xs, key) && |xs| > 0
    ensures SortedBy(xs[1..], key)
  {
    forall i, j | 0 <= i < j < |xs[1..]|
      ensures LessEq(key(xs[1..][i]), key(xs[1..][j]))
    {
      assert xs[1..][i] == xs[i + 1] && xs[1..][j] == xs[j + 1];
    }
  }

  /** The head of a sorted list of strings sorts no later than any of its elements. */
  lemma HeadIsLeast(xs: seq<string>, x: string)
    requires SortedBy(xs, Id) && x in xs
    ensures LessEq(xs[0], x)
  {
    var j :| 0 <= j < |xs| && xs[j] == x;
    if j == 0 {
      LessEqRefl(x);
    } else {
      assert LessEq(Id(xs[0]), Id(xs[j]));
    }
  }

  /** A sorted list of strings is determined by its multiset of elements: this is
      why `sorted` forgets the order of its input. */
  lemma {:induction false} SortedUnique(a: seq<string>, b: seq<string>)
    requires SortedBy(a, Id) && SortedBy(b, Id)
    requires multiset(a) == multiset(b)
    ensures a == b
    decreases |a|
  {
    if a == [] {
      assert |b| == |multiset(b)| == 0;
    } else {
      assert |b| == |multiset(b)| == |multiset(a)| == |a|;
      SortedHeadsEqual(a, b);
      assert multiset(a[1..]) == multiset(b[1..]) by {
        assert a == [a[0]] + a[1..];
        assert b == [b[0]] + b[1..];
        assert multiset(a[1..]) == multiset(a) - multiset{a[0]};
        assert multiset(b[1..]) == multiset(b) - multiset{b[0]};
      }
      SortedTail(a, Id);
      SortedTail(b, Id);
      SortedUnique(a[1..], b[1..]);
      assert a == [a[0]] + a[1..];
      assert b == [b[0]] + b[1..];
    }
  }

  /** Two non-empty sorted lists with the same elements start alike. */
  lemma SortedHeadsEqual(a: seq<string>, b: seq<string>)
    requires SortedBy(a, Id) && SortedBy(b, Id)
    requires multiset(a) == multiset(b) && a != [] && b != []
    ensures a[0] == b[0]
  {
    assert a[0] in multiset(b) && b[0] in multiset(a);
    HeadIsLeast(b, a[0]);
    HeadIsLeast(a, b[0]);
    LessEqAntisym(a[0], b[0]);
  }

  /** Sorting a list twice, or sorting any permutation of it, gives the same list. */
  lemma SortPermutationInvariant(xs: seq<string>, ys: seq<string>)
    requires multiset(xs) == multiset(ys)
    ensures Sort(xs) == Sort(ys)
  {
    SortedUnique(Sort(xs), Sort(ys));
  }

  /** A list with every run of equal neighbours collapsed to one element. */
  function Dedup(s: seq<string>): (r: seq<string>)
    ensures |s| > 0 ==> |r| > 0 && r[0] == s[0]
    ensures |r| <= |s|
  {
    if |s| <= 1 then s
    else if s[0] == s[1] then Dedup(s[1..])
    else [s[0]] + Dedup(s[1..])
  }

  /** Collapsing runs keeps every element and invents none; on a sorted list
      it leaves a strictly sorted one. */
  lemma {:induction false} DedupSpec(s: seq<string>)
    ensures forall x :: x in Dedup(s) <==> x in s
    ensures SortedBy(s, Id) ==> StrictlySortedBy(Dedup(s), Id)
  {
    if |s| > 1 {
      DedupSpec(s[1..]);
      assert forall x :: x in s <==> x == s[0] || x in s[1..];
      if SortedBy(s, Id) {
        SortedTail(s, Id);
        if s[0] != s[1] {
          var d := Dedup(s[1..]);
          assert LessEq(Id(s[0]), Id(s[1]));
          forall i, j | 0 <= i < j < |[s[0]] + d|
            ensures Less(Id(([s[0]] + d)[i]), Id(([s[0]] + d)[j]))
          {
            if i == 0 {
              var y := d[j - 1];
              assert y in s[1..];
              HeadIsLeast(s[1..], y);
              LessEqTrans(s[0], s[1], y);
              if y == s[0] {
                LessEqAntisym(s[0], s[1]);
              }
            } else {
              assert ([s[0]] + d)[i] == d[i - 1] && ([s[0]] + d)[j] == d[j - 1];
            }
          }
        }
      }
    }
  }

  /** Two lists with the same elements are empty together. */
  lemma SameElementsEmpty<T>(a: seq<T>, b: seq<T>)
    requires forall x :: x in a <==> x in b
    ensures a == [] <==> b == []
  {
    forall x
      ensures x in multiset(a) <==> x in multiset(b)
    {
      assert x in b <==> x in a;
    }
    if a == [] {
      assert multiset(b) == multiset{};
      assert |b| == |multiset(b)| == 0;
    } else {
      assert multiset(a) != multiset{} by { assert a[0] in multiset(a); }
    }
  }

  /** Two strictly sorted lists with the same elements are equal. */
  lemma {:induction false} StrictlySortedUnique(a: seq<string>, b: seq<string>)
    requires StrictlySortedBy(a, Id) && StrictlySortedBy(b, Id)
    requires forall x :: x in a <==> x in b
    ensures a == b
    decreases |a|
  {
    SameElementsEmpty(a, b);
    if a != [] {
      assert a[0] in b;
      assert b != [] && b[0] in a;
      var i :| 0 <= i < |a| && a[i] == b[0];
      var j :| 0 <= j < |b| && b[j] == a[0];
      if i > 0 {
        assert Less(Id(a[0]), Id(a[i]));
        if j > 0 {
          assert Less(Id(b[0]), Id(b[j]));
          LessEqAntisym(a[0], b[0]);
        }
      }
      forall x
        ensures x in a[1..] <==> x in b[1..]
      {
        if x in a[1..] {
          var k :| 0 <= k < |a[1..]| && a[1..][k] == x;
          assert Less(Id(a[0]), Id(a[k + 1]));
          assert x in b;
          assert x == b[0] || x in b[1..];
        }
        if x in b[1..] {
          var k :| 0 <= k < |b[1..]| && b[1..][k] == x;
          assert Less(Id(b[0]), Id(b[k + 1]));
          assert x in a;
          assert x == a[0] || x in a[1..];
        }
      }
      forall i', j' | 0 <= i' < j' < |a[1..]|
        ensures Less(Id(a[1..][i']), Id(a[1..][j']))
      {
        assert a[1..][i'] == a[i' + 1] && a[1..][j'] == a[j' + 1];
      }
      forall i', j' | 0 <= i' < j' < |b[1..]|
        ensures Less(Id(b[1..][i']), Id(b[1..][j']))
      {
        assert b[1..][i'] == b[i' + 1] && b[1..][j'] == b[j' + 1];
      }
      StrictlySortedUnique(a[1..], b[1..]);
      assert a == [a[0]] + a[1..];
      assert b == [b[0]] + b[1..];
    }
  }

  /** No two elements share a key. */
  ghost predicate DistinctKeys<T>(xs: seq<T>, key: T -> string)
  {
    forall i, j :: 0 <= i < j < |xs| ==> key(xs[i]) != key(xs[j])
  }

  lemma ConsDistinctKeys<T>(y: T, ys: seq<T>, key: T -> string)
    requires DistinctKeys(ys, key)
    requires forall z :: z in ys ==> key(z) != key(y)
    ensures DistinctKeys([y] + ys, key)
  {
    forall i, j | 0 <= i < j < |[y] + ys|
      ensures key(([y] + ys)[i]) != key(([y] + ys)[j])
    {
      assert ([y] + ys)[j] == ys[j - 1];
      if i > 0 {
        assert ([y] + ys)[i] == ys[i - 1];
      }
    }
  }

  lemma {:induction false} InsertByDistinctKeys<T>(x: T, ys: seq<T>, key: T -> string)
    requires SortedBy(ys, key) && DistinctKeys(ys, key)
    requires forall z :: z in ys ==> key(z) != key(x)
    ensures DistinctKeys(InsertBy(x, ys, key), key)
    decreases |ys|
  {
    if ys != [] && !LessEq(key(x), key(ys[0])) {
      SortedTail(ys, key);
      forall i, j | 0 <= i < j < |ys[1..]|
        ensures key(ys[1..][i]) != key(ys[1..][j])
      {
        assert ys[1..][i] == ys[i + 1] && ys[1..][j] == ys[j + 1];
      }
      InsertByDistinctKeys(x, ys[1..], key);
      var rest := InsertBy(x, ys[1..], key);
      forall z | z in rest
        ensures key(z) != key(ys[0])
      {
        assert z in multiset(rest);
        if z != x {
          assert z in multiset(ys[1..]);
          var k :| 0 <= k < |ys[1..]| && ys[1..][k] == z;
          assert ys[k + 1] == z;
        }
      }
      ConsDistinctKeys(ys[0], rest, key);
    } else {
      ConsDistinctKeys(x, ys, key);
    }
  }

  /** Sorting keeps keys distinct, so a sorted list of distinctly keyed
      elements ascends strictly. */
  lemma {:induction false} SortByDistinctKeys<T>(xs: seq<T>, key: T -> string)
    requires DistinctKeys(xs, key)
    ensures DistinctKeys(SortBy(xs, key), key)
    ensures StrictlySortedBy(SortBy(xs, key), key)
  {
    if xs != [] {
      forall i, j | 0 <= i < j < |xs[1..]|
        ensures key(xs[1..][i]) != key(xs[1..][j])
      {
        assert xs[1..][i] == xs[i + 1] && xs[1..][j] == xs[j + 1];
      }
      SortByDistinctKeys(xs[1..], key);
      var rest := SortBy(xs[1..], key);
      forall z | z in rest
        ensures key(z) != key(xs[0])
      {
        assert z in multiset(rest);
        assert z in multiset(xs[1..]);
        var k :| 0 <= k < |xs[1..]| && xs[1..][k] == z;
        assert xs[k + 1] == z;
      }
      InsertByDistinctKeys(xs[0], rest, key);
    }
    var r := SortBy(xs, key);
    forall i, j | 0 <= i < j < |r|
      ensures Less(key(r[i]), key(r[j]))
    {
    }
  }
}
