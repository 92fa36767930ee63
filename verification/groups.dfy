/** `Renderer._group_objects`: the scene's objects are sorted by their
    tracer kernel name and cut into runs of equal name, each run recorded as
    its first object's tracer, its length and its offset; then the root
    container object is located. */
module ObjectGroups {
  import opened Wrappers

  // ---------------------------------------------------------------------
  // Python's ordering of strings.

  /** `a < b` on Python strings: lexicographic by code point, a proper
      prefix first. */
  predicate StrLess(a: string, b: string)
    decreases |a|
  {
    |b| > 0 && (|a| == 0 || a[0] < b[0] || (a[0] == b[0] && StrLess(a[1..], b[1..])))
  }

  predicate StrLe(a: string, b: string) {
    a == b || StrLess(a, b)
  }

  lemma {:induction false} StrLessIrreflexive(a: string)
    ensures !StrLess(a, a)
    decreases |a|
  {
    if |a| > 0 {
      StrLessIrreflexive(a[1..]);
    }
  }

  lemma {:induction false} StrLessTransitive(a: string, b: string, c: string)
    requires StrLess(a, b) && StrLess(b, c)
    ensures StrLess(a, c)
    decreases |a|
  {
    if |a| > 0 && a[0] == b[0] && b[0] == c[0] {
      StrLessTransitive(a[1..], b[1..], c[1..]);
    }
  }

  /** Two different strings are ordered one way or the other. */
  lemma {:induction false} StrLessTotal(a: string, b: string)
    requires a != b
    ensures StrLess(a, b) || StrLess(b, a)
    decreases |a|
  {
    if |a| > 0 && |b| > 0 && a[0] == b[0] {
      assert a == [a[0]] + a[1..] && b == [b[0]] + b[1..];
      StrLessTotal(a[1..], b[1..]);
    }
  }

  lemma StrLeTransitive(a: string, b: string, c: string)
    requires StrLe(a, b) && StrLe(b, c)
    ensures StrLe(a, c)
  {
    if StrLess(a, b) && StrLess(b, c) {
      StrLessTransitive(a, b, c);
    }
  }

  // ---------------------------------------------------------------------
  // `list.sort(key=...)`: a stable sort.

  predicate Sorted<T>(s: seq<T>, key: T -> string) {
    forall i, j :: 0 <= i < j < |s| ==> StrLe(key(s[i]), key(s[j]))
  }

  /** `x` placed before the first element whose key is not below its own. */
  function Insert<T>(x: T, s: seq<T>, key: T -> string): (r: seq<T>)
    ensures multiset(r) == multiset(s) + multiset{x}
    decreases |s|
  {
    if |s| == 0 then [x]
    else if StrLe(key(x), key(s[0])) then [x] + s
    else
      assert s == [s[0]] + s[1..];
      [s[0]] + Insert(x, s[1..], key)
  }

  /** Stable insertion sort by key. */
  function SortByKey<T>(s: seq<T>, key: T -> string): (r: seq<T>)
    ensures multiset(r) == multiset(s)
    decreases |s|
  {
    if |s| == 0 then []
    else
      assert s == [s[0]] + s[1..];
      Insert(s[0], SortByKey(s[1..], key), key)
  }

  lemma {:induction false} InsertSorted<T>(x: T, s: seq<T>, key: T -> string)
    requires Sorted(s, key)
    ensures Sorted(Insert(x, s, key), key)
    decreases |s|
  {
    if |s| > 0 && !StrLe(key(x), key(s[0])) {
      var tail := Insert(x, s[1..], key);
      InsertSorted(x, s[1..], key);
      StrLessTotal(key(x), key(s[0]));
      forall e | e in tail
        ensures StrLe(key(s[0]), key(e))
      {
        assert e in multiset(tail);
        if e != x {
          assert e in s[1..];
        }
      }
      forall j | 0 <= j < |tail|
        ensures StrLe(key(s[0]), key(tail[j]))
      {
        assert tail[j] in tail;
      }
    } else if |s| > 0 {
      forall j | 0 <= j < |s|
        ensures StrLe(key(x), key(s[j]))
      {
        StrLeTransitive(key(x), key(s[0]), key(s[j]));
      }
    }
  }

  /** The sort orders by key and permutes its input. */
  lemma {:induction false} SortSorted<T>(s: seq<T>, key: T -> string)
    ensures Sorted(SortByKey(s, key), key)
    ensures multiset(SortByKey(s, key)) == multiset(s)
    decreases |s|
  {
    if |s| > 0 {
      SortSorted(s[1..], key);
      InsertSorted(s[0], SortByKey(s[1..], key), key);
    }
  }

  /** The objects with key `k`, in order. */
  function WithKey<T>(s: seq<T>, k: string, key: T -> string): seq<T>
    decreases |s|
  {
    if |s| == 0 then []
    else (if key(s[0]) == k then [s[0]] else []) + WithKey(s[1..], k, key)
  }

  lemma {:induction false} InsertWithKey<T>(x: T, s: seq<T>, k: string, key: T -> string)
    ensures WithKey(Insert(x, s, key), k, key) == (if key(x) == k then [x] else []) + WithKey(s, k, key)
    decreases |s|
  {
    var hx := if key(x) == k then [x] else [];
    if |s| == 0 {
      WithKeyCons(x, [], k, key);
      assert [x] + [] == [x];
    } else if StrLe(key(x), key(s[0])) {
      WithKeyCons(x, s, k, key);
    } else {
      var tail := Insert(x, s[1..], key);
      var hs := if key(s[0]) == k then [s[0]] else [];
      assert Insert(x, s, key) == [s[0]] + tail;
      WithKeyCons(s[0], tail, k, key);
      InsertWithKey(x, s[1..], k, key);
      assert s == [s[0]] + s[1..];
      WithKeyCons(s[0], s[1..], k, key);
      var w := WithKey(s[1..], k, key);
      if key(x) == k {
        assert hs == [];
        assert hs + (hx + w) == hx + w == hx + (hs + w);
      } else {
        assert hx == [];
        assert hs + (hx + w) == hs + w == hx + (hs + w);
      }
    }
  }

  lemma WithKeyCons<T>(h: T, t: seq<T>, k: string, key: T -> string)
    ensures WithKey([h] + t, k, key) == (if key(h) == k then [h] else []) + WithKey(t, k, key)
  {
    assert ([h] + t)[1..] == t;
  }

  /** The sort is stable: objects of equal key keep their order. */
  lemma {:induction false} SortStable<T>(s: seq<T>, k: string, key: T -> string)
    ensures WithKey(SortByKey(s, key), k, key) == WithKey(s, k, key)
    decreases |s|
  {
    if |s| > 0 {
      SortStable(s[1..], k, key);
      InsertWithKey(s[0], SortByKey(s[1..], key), k, key);
    }
  }

  // ---------------------------------------------------------------------
  // `itertools.groupby` and the offsets.

  /** One entry of `object_groups`: `(tracer, count, offset)`. */
  datatype Group<T> = Group(first: T, count: nat, offset: nat)

  /** The length of the leading run of objects with key `k`. */
  function RunLength<T>(s: seq<T>, k: string, key: T -> string): (n: nat)
    ensures n <= |s|
    ensures n > 0 <==> |s| > 0 && key(s[0]) == k
    ensures n < |s| ==> key(s[n]) != k
    decreases |s|
  {
    if |s| == 0 || key(s[0]) != k then 0 else 1 + RunLength(s[1..], k, key)
  }

  /** Every object of the leading run has key `k`. */
  lemma {:induction false} RunLengthKeys<T>(s: seq<T>, k: string, key: T -> string, j: nat)
    requires j < RunLength(s, k, key)
    ensures key(s[j]) == k
    decreases |s|
  {
    if j > 0 {
      RunLengthKeys(s[1..], k, key, j - 1);
    }
  }

  /** The groups of the sorted objects from `offset` on, each starting where
      the previous one ended. */
  function GroupsFrom<T>(s: seq<T>, offset: nat, key: T -> string): (g: seq<Group<T>>)
    ensures |g| <= |s|
    decreases |s|
  {
    if |s| == 0 then []
    else
      var n := RunLength(s, key(s[0]), key);
      [Group(s[0], n, offset)] + GroupsFrom(s[n..], offset + n, key)
  }

  /** `_group_objects`: the sorted objects and their groups. In sorted order
      `groupby` yields each name once and already in `sorted` order, so the
      groups are listed as they are found. */
  function GroupObjects<T>(objs: seq<T>, key: T -> string): (r: (seq<T>, seq<Group<T>>))
    ensures multiset(r.0) == multiset(objs) && Sorted(r.0, key)
  {
    SortSorted(objs, key);
    var sorted := SortByKey(objs, key);
    (sorted, GroupsFrom(sorted, 0, key))
  }

  /** The first group is the run of the first object; group `i + 1` is
      group `i` of the objects after that run. */
  lemma GroupsFromAt<T>(s: seq<T>, offset: nat, key: T -> string, i: nat)
    requires i < |GroupsFrom(s, offset, key)|
    ensures var n := RunLength(s, key(s[0]), key); var g := GroupsFrom(s, offset, key);
      && 0 < n <= |s|
      && (i == 0 ==> g[0] == Group(s[0], n, offset))
      && (i > 0 ==> i - 1 < |GroupsFrom(s[n..], offset + n, key)| && g[i] == GroupsFrom(s[n..], offset + n, key)[i - 1])
  {
    var n := RunLength(s, key(s[0]), key);
    var rest := GroupsFrom(s[n..], offset + n, key);
    assert GroupsFrom(s, offset, key) == [Group(s[0], n, offset)] + rest;
  }

  /** Group `i` is non-empty, lies within the objects and starts with the
      object at its offset. */
  lemma {:induction false} GroupAt<T>(s: seq<T>, offset: nat, key: T -> string, i: nat)
    requires i < |GroupsFrom(s, offset, key)|
    ensures var g := GroupsFrom(s, offset, key);
      && g[i].count >= 1
      && offset <= g[i].offset
      && g[i].offset + g[i].count <= offset + |s|
      && g[i].first == s[g[i].offset - offset]
    decreases |s|
  {
    var n := RunLength(s, key(s[0]), key);
    GroupsFromAt(s, offset, key, i);
    if i > 0 {
      GroupAt(s[n..], offset + n, key, i - 1);
    }
  }

  /** Group `i + 1` starts where group `i` ends. */
  lemma {:induction false} GroupsContiguous<T>(s: seq<T>, offset: nat, key: T -> string, i: nat)
    requires i + 1 < |GroupsFrom(s, offset, key)|
    ensures var g := GroupsFrom(s, offset, key);
      g[i + 1].offset == g[i].offset + g[i].count
    decreases |s|
  {
    var n := RunLength(s, key(s[0]), key);
    var g := GroupsFrom(s, offset, key);
    var rest := GroupsFrom(s[n..], offset + n, key);
    assert g[i + 1] == rest[i];
    if i > 0 {
      assert g[i] == rest[i - 1];
      GroupsContiguous(s[n..], offset + n, key, i - 1);
    } else {
      GroupsEnds(s[n..], offset + n, key);
    }
  }

  /** There are groups exactly when there are objects; the first starts at
      `offset` and the last ends after the last object. */
  lemma {:induction false} GroupsEnds<T>(s: seq<T>, offset: nat, key: T -> string)
    ensures var g := GroupsFrom(s, offset, key);
      && (|g| == 0 <==> |s| == 0)
      && (|g| > 0 ==> g[0].offset == offset && g[|g| - 1].offset + g[|g| - 1].count == offset + |s|)
    decreases |s|
  {
    if |s| > 0 {
      var n := RunLength(s, key(s[0]), key);
      var g := GroupsFrom(s, offset, key);
      var rest := GroupsFrom(s[n..], offset + n, key);
      GroupsEnds(s[n..], offset + n, key);
      if |rest| > 0 {
        assert g[|g| - 1] == rest[|rest| - 1];
      }
    }
  }

  /** The groups tile the objects: the first starts at `offset`, each
      starts where the previous ended, the last ends after the last object,
      and every group is non-empty with its first object at its offset. */
  lemma GroupsTile<T>(s: seq<T>, offset: nat, key: T -> string)
    ensures var g := GroupsFrom(s, offset, key);
      && (|g| == 0 <==> |s| == 0)
      && (|g| > 0 ==> g[0].offset == offset && g[|g| - 1].offset + g[|g| - 1].count == offset + |s|)
      && (forall i :: 0 <= i < |g| - 1 ==> g[i + 1].offset == g[i].offset + g[i].count)
      && (forall i :: 0 <= i < |g| ==>
            g[i].count >= 1 && offset <= g[i].offset && g[i].offset + g[i].count <= offset + |s|
            && g[i].first == s[g[i].offset - offset])
  {
    var g := GroupsFrom(s, offset, key);
    GroupsEnds(s, offset, key);
    forall i | 0 <= i < |g| - 1
      ensures g[i + 1].offset == g[i].offset + g[i].count
    {
      GroupsContiguous(s, offset, key, i);
    }
    forall i | 0 <= i < |g|
      ensures g[i].count >= 1 && offset <= g[i].offset && g[i].offset + g[i].count <= offset + |s|
        && g[i].first == s[g[i].offset - offset]
    {
      GroupAt(s, offset, key, i);
    }
  }

  /** Every object of a group has the group's kernel name. */
  lemma {:induction false} GroupsShareKey<T>(s: seq<T>, offset: nat, key: T -> string, i: nat, j: nat)
    requires var g := GroupsFrom(s, offset, key);
      i < |g| && g[i].offset <= j < g[i].offset + g[i].count
    ensures offset <= j < offset + |s|
    ensures var g := GroupsFrom(s, offset, key);
      key(s[j - offset]) == key(g[i].first)
    decreases |s|
  {
    var n := RunLength(s, key(s[0]), key);
    GroupsFromAt(s, offset, key, i);
    if i > 0 {
      GroupAt(s[n..], offset + n, key, i - 1);
      GroupsShareKey(s[n..], offset + n, key, i - 1, j);
    } else {
      RunLengthKeys(s, key(s[0]), key, j - offset);
    }
  }

  /** Neighbouring groups have different kernel names: a run ends where
      the name changes. */
  lemma {:induction false} GroupsKeyChange<T>(s: seq<T>, offset: nat, key: T -> string, i: nat)
    requires i + 1 < |GroupsFrom(s, offset, key)|
    ensures var g := GroupsFrom(s, offset, key);
      key(g[i].first) != key(g[i + 1].first)
    decreases |s|
  {
    var n := RunLength(s, key(s[0]), key);
    GroupsFromAt(s, offset, key, i);
    GroupsFromAt(s, offset, key, i + 1);
    if i == 0 {
      GroupAt(s[n..], offset + n, key, 0);
      GroupsEnds(s[n..], offset + n, key);
      assert s[n..][0] == s[n];
    } else {
      GroupsKeyChange(s[n..], offset + n, key, i - 1);
    }
  }

  /** In sorted order the groups' kernel names strictly increase, so each
      name has one group and the groups follow `sorted(names)`. */
  lemma GroupsAscend<T>(s: seq<T>, offset: nat, key: T -> string, i: nat)
    requires Sorted(s, key)
    requires i + 1 < |GroupsFrom(s, offset, key)|
    ensures var g := GroupsFrom(s, offset, key);
      StrLess(key(g[i].first), key(g[i + 1].first))
  {
    var g := GroupsFrom(s, offset, key);
    GroupAt(s, offset, key, i);
    GroupAt(s, offset, key, i + 1);
    GroupsContiguous(s, offset, key, i);
    GroupsKeyChange(s, offset, key, i);
    var a, b := g[i].offset - offset, g[i + 1].offset - offset;
    assert StrLe(key(s[a]), key(s[b]));
  }

  lemma SortedDrop<T>(s: seq<T>, n: nat, key: T -> string)
    requires Sorted(s, key) && n <= |s|
    ensures Sorted(s[n..], key)
  {
    forall a, b | 0 <= a < b < |s[n..]|
      ensures StrLe(key(s[n..][a]), key(s[n..][b]))
    {
      assert s[n..][a] == s[n + a] && s[n..][b] == s[n + b];
    }
  }

  function SumCounts<T>(g: seq<Group<T>>): nat {
    if |g| == 0 then 0 else g[0].count + SumCounts(g[1..])
  }

  /** The counts add up to the number of objects. */
  lemma {:induction false} GroupCountsSum<T>(s: seq<T>, offset: nat, key: T -> string)
    ensures SumCounts(GroupsFrom(s, offset, key)) == |s|
    decreases |s|
  {
    if |s| > 0 {
      var n := RunLength(s, key(s[0]), key);
      var g := GroupsFrom(s, offset, key);
      GroupCountsSum(s[n..], offset + n, key);
      assert g[1..] == GroupsFrom(s[n..], offset + n, key);
    }
  }

  // ---------------------------------------------------------------------
  // The root container object.

  /** `root_object_id`: one more than the last position holding the root
      object, or 0 when no object is the root. */
  method RootObjectId<T(==)>(objs: seq<T>, root: Option<T>) returns (id: nat)
    ensures id == 0 <==> forall i :: 0 <= i < |objs| ==> Some(objs[i]) != root
    ensures id > 0 ==> id <= |objs| && Some(objs[id - 1]) == root
    ensures forall i :: id <= i < |objs| ==> Some(objs[i]) != root
  {
    id := 0;
    for i := 0 to |objs|
      invariant id <= i
      invariant id == 0 <==> forall j :: 0 <= j < i ==> Some(objs[j]) != root
      invariant id > 0 ==> Some(objs[id - 1]) == root
      invariant forall j :: id <= j < i ==> Some(objs[j]) != root
    {
      if root == Some(objs[i]) {
        id := i + 1;
      }
    }
  }
}
