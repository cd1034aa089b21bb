/**
 * The value-level specification of `merge` and `list_sort`: sequences of node
 * indices, compared by the payload each node carries. `key[x]` is the `item`
 * of node `x`. `Merge` is the two-way merge with the left-biased tie rule, and
 * `Sort` is a stable insertion sort used as the reference the in-place merge
 * sort is proved equal to.
 */
module SortSpec {
  import opened Compare

  /** The payload of node `x` (nodes outside the arena read as 0; no caller passes one). */
  function KeyOf(key: seq<int>, x: nat): int {
    if x < |key| then key[x] else 0
  }

  ghost predicate Sorted(key: seq<int>, s: seq<nat>) {
    forall i, j :: 0 <= i < j < |s| ==> KeyOf(key, s[i]) <= KeyOf(key, s[j])
  }

  /** The nodes of `s` whose payload is `v`, in the order of `s`. */
  function WithKey(key: seq<int>, v: int, s: seq<nat>): seq<nat> {
    if s == [] then []
    else (if KeyOf(key, s[0]) == v then [s[0]] else []) + WithKey(key, v, s[1..])
  }

  /**
   * Two-way merge: the left front is taken when it does not compare Greater
   * than the right front; once one side is exhausted the other is appended whole.
   */
  function Merge(key: seq<int>, xs: seq<nat>, ys: seq<nat>): seq<nat>
    decreases |xs| + |ys|
  {
    if xs == [] then ys
    else if ys == [] then xs
    else if CmpFunc(KeyOf(key, xs[0]), KeyOf(key, ys[0])) != Greater then [xs[0]] + Merge(key, xs[1..], ys)
    else [ys[0]] + Merge(key, xs, ys[1..])
  }

  /** Inserts `x` in front of the first element whose payload is not smaller. */
  function Insert(key: seq<int>, x: nat, r: seq<nat>): seq<nat> {
    if r == [] then [x]
    else if KeyOf(key, x) <= KeyOf(key, r[0]) then [x] + r
    else [r[0]] + Insert(key, x, r[1..])
  }

  /** The reference stable sort. */
  function Sort(key: seq<int>, s: seq<nat>): seq<nat> {
    if s == [] then [] else Insert(key, s[0], Sort(key, s[1..]))
  }

  // ---------------------------------------------------------------- WithKey

  lemma AppendAssoc(a: seq<nat>, b: seq<nat>, c: seq<nat>)
    ensures a + (b + c) == (a + b) + c
  {
  }

  lemma {:induction false} WithKeyAppend(key: seq<int>, v: int, a: seq<nat>, b: seq<nat>)
    ensures WithKey(key, v, a + b) == WithKey(key, v, a) + WithKey(key, v, b)
  {
    if a != [] {
      assert (a + b)[1..] == a[1..] + b;
      WithKeyAppend(key, v, a[1..], b);
    } else {
      assert a + b == b;
    }
  }

  /** In a sorted sequence that starts above `v`, no node carries `v`. */
  lemma {:induction false} WithKeyAbove(key: seq<int>, v: int, s: seq<nat>)
    requires Sorted(key, s) && s != [] && v < KeyOf(key, s[0])
    ensures WithKey(key, v, s) == []
  {
    if |s| > 1 {
      assert Sorted(key, s[1..]) by {
        forall i, j | 0 <= i < j < |s| - 1 ensures KeyOf(key, s[1..][i]) <= KeyOf(key, s[1..][j]) {
          assert s[1..][i] == s[i + 1] && s[1..][j] == s[j + 1];
        }
      }
      assert KeyOf(key, s[0]) <= KeyOf(key, s[1]);
      WithKeyAbove(key, v, s[1..]);
    }
  }

  lemma SortedTail(key: seq<int>, s: seq<nat>)
    requires Sorted(key, s) && s != []
    ensures Sorted(key, s[1..])
  {
    forall i, j | 0 <= i < j < |s| - 1 ensures KeyOf(key, s[1..][i]) <= KeyOf(key, s[1..][j]) {
      assert s[1..][i] == s[i + 1] && s[1..][j] == s[j + 1];
    }
  }

  lemma SortedCons(key: seq<int>, x: nat, s: seq<nat>)
    requires Sorted(key, s)
    requires forall k :: 0 <= k < |s| ==> KeyOf(key, x) <= KeyOf(key, s[k])
    ensures Sorted(key, [x] + s)
  {
    forall i, j | 0 <= i < j < |s| + 1 ensures KeyOf(key, ([x] + s)[i]) <= KeyOf(key, ([x] + s)[j]) {
      if i > 0 {
        assert ([x] + s)[i] == s[i - 1];
      }
      assert ([x] + s)[j] == s[j - 1];
    }
  }

  // ---------------------------------------------------------------- Merge

  /** merge loses and duplicates nothing: the result is a permutation of both inputs together. */
  lemma {:induction false} MergePermutation(key: seq<int>, xs: seq<nat>, ys: seq<nat>)
    ensures multiset(Merge(key, xs, ys)) == multiset(xs) + multiset(ys)
    ensures |Merge(key, xs, ys)| == |xs| + |ys|
    decreases |xs| + |ys|
  {
    if xs != [] && ys != [] {
      if CmpFunc(KeyOf(key, xs[0]), KeyOf(key, ys[0])) != Greater {
        MergePermutation(key, xs[1..], ys);
        assert xs == [xs[0]] + xs[1..];
      } else {
        MergePermutation(key, xs, ys[1..]);
        assert ys == [ys[0]] + ys[1..];
      }
    }
  }

  /** The merge holds exactly the nodes of its two inputs. */
  lemma MergeMembers(key: seq<int>, xs: seq<nat>, ys: seq<nat>, z: nat)
    ensures z in Merge(key, xs, ys) <==> z in xs || z in ys
  {
    MergePermutation(key, xs, ys);
    assert z in Merge(key, xs, ys) <==> z in multiset(Merge(key, xs, ys));
  }

  /** The merge of two ascending sequences is ascending. */
  lemma {:induction false} MergeSorted(key: seq<int>, xs: seq<nat>, ys: seq<nat>)
    requires Sorted(key, xs) && Sorted(key, ys)
    ensures Sorted(key, Merge(key, xs, ys))
    decreases |xs| + |ys|
  {
    if xs != [] && ys != [] {
      if CmpFunc(KeyOf(key, xs[0]), KeyOf(key, ys[0])) != Greater {
        SortedTail(key, xs);
        MergeSorted(key, xs[1..], ys);
        var rest := Merge(key, xs[1..], ys);
        forall k | 0 <= k < |rest| ensures KeyOf(key, xs[0]) <= KeyOf(key, rest[k]) {
          MergeMembers(key, xs[1..], ys, rest[k]);
          if rest[k] in xs[1..] {
            var i :| 0 <= i < |xs[1..]| && xs[1..][i] == rest[k];
            assert xs[1..][i] == xs[i + 1];
          } else {
            var i :| 0 <= i < |ys| && ys[i] == rest[k];
            assert i == 0 || KeyOf(key, ys[0]) <= KeyOf(key, ys[i]);
          }
        }
        SortedCons(key, xs[0], rest);
      } else {
        SortedTail(key, ys);
        MergeSorted(key, xs, ys[1..]);
        var rest := Merge(key, xs, ys[1..]);
        forall k | 0 <= k < |rest| ensures KeyOf(key, ys[0]) <= KeyOf(key, rest[k]) {
          MergeMembers(key, xs, ys[1..], rest[k]);
          if rest[k] in ys[1..] {
            var i :| 0 <= i < |ys[1..]| && ys[1..][i] == rest[k];
            assert ys[1..][i] == ys[i + 1];
          } else {
            var i :| 0 <= i < |xs| && xs[i] == rest[k];
            assert i == 0 || KeyOf(key, xs[0]) <= KeyOf(key, xs[i]);
          }
        }
        SortedCons(key, ys[0], rest);
      }
    }
  }

  /**
   * merge is stable: among nodes with one payload, all those of `xs` come
   * first, each side in its own order.
   */
  lemma {:induction false} MergeStable(key: seq<int>, v: int, xs: seq<nat>, ys: seq<nat>)
    requires Sorted(key, xs) && Sorted(key, ys)
    ensures WithKey(key, v, Merge(key, xs, ys)) == WithKey(key, v, xs) + WithKey(key, v, ys)
    decreases |xs| + |ys|
  {
    if xs == [] {
    } else if ys == [] {
    } else if CmpFunc(KeyOf(key, xs[0]), KeyOf(key, ys[0])) != Greater {
      SortedTail(key, xs);
      MergeStable(key, v, xs[1..], ys);
      assert Merge(key, xs, ys) == [xs[0]] + Merge(key, xs[1..], ys);
      StableTakeLeft(key, v, xs, ys, Merge(key, xs[1..], ys));
    } else {
      SortedTail(key, ys);
      MergeStable(key, v, xs, ys[1..]);
      assert Merge(key, xs, ys) == [ys[0]] + Merge(key, xs, ys[1..]);
      StableTakeRight(key, v, xs, ys, Merge(key, xs, ys[1..]));
    }
  }

  /** One step of `MergeStable` where merge takes the left front. */
  lemma StableTakeLeft(key: seq<int>, v: int, xs: seq<nat>, ys: seq<nat>, rest: seq<nat>)
    requires xs != [] && WithKey(key, v, rest) == WithKey(key, v, xs[1..]) + WithKey(key, v, ys)
    ensures WithKey(key, v, [xs[0]] + rest) == WithKey(key, v, xs) + WithKey(key, v, ys)
  {
    var h := if KeyOf(key, xs[0]) == v then [xs[0]] else [];
    assert ([xs[0]] + rest)[1..] == rest;
    assert WithKey(key, v, [xs[0]] + rest) == h + WithKey(key, v, rest);
    assert WithKey(key, v, xs) == h + WithKey(key, v, xs[1..]);
    AppendAssoc(h, WithKey(key, v, xs[1..]), WithKey(key, v, ys));
  }

  /**
   * One step of `MergeStable` where merge takes the right front: that front
   * compares below every node of `xs`, so when it has the payload `v` no node
   * of `xs` has it.
   */
  lemma StableTakeRight(key: seq<int>, v: int, xs: seq<nat>, ys: seq<nat>, rest: seq<nat>)
    requires Sorted(key, xs) && xs != [] && ys != [] && CmpFunc(KeyOf(key, xs[0]), KeyOf(key, ys[0])) == Greater
    requires WithKey(key, v, rest) == WithKey(key, v, xs) + WithKey(key, v, ys[1..])
    ensures WithKey(key, v, [ys[0]] + rest) == WithKey(key, v, xs) + WithKey(key, v, ys)
  {
    var h := if KeyOf(key, ys[0]) == v then [ys[0]] else [];
    assert ([ys[0]] + rest)[1..] == rest;
    assert WithKey(key, v, [ys[0]] + rest) == h + WithKey(key, v, rest);
    assert WithKey(key, v, ys) == h + WithKey(key, v, ys[1..]);
    if KeyOf(key, ys[0]) == v {
      WithKeyAbove(key, v, xs);
      assert [] + WithKey(key, v, ys[1..]) == WithKey(key, v, ys[1..]);
      assert [] + WithKey(key, v, ys) == WithKey(key, v, ys);
    } else {
      assert h + WithKey(key, v, rest) == WithKey(key, v, rest);
      assert [] + WithKey(key, v, ys[1..]) == WithKey(key, v, ys[1..]);
    }
  }

  /** merge reads payloads only of the nodes it is given. */
  lemma {:induction false} MergeSameKeys(key: seq<int>, key': seq<int>, xs: seq<nat>, ys: seq<nat>)
    requires forall k :: 0 <= k < |xs| ==> KeyOf(key, xs[k]) == KeyOf(key', xs[k])
    requires forall k :: 0 <= k < |ys| ==> KeyOf(key, ys[k]) == KeyOf(key', ys[k])
    ensures Merge(key, xs, ys) == Merge(key', xs, ys)
    decreases |xs| + |ys|
  {
    if xs != [] && ys != [] {
      assert KeyOf(key, xs[0]) == KeyOf(key', xs[0]) && KeyOf(key, ys[0]) == KeyOf(key', ys[0]);
      if CmpFunc(KeyOf(key, xs[0]), KeyOf(key, ys[0])) != Greater {
        assert forall k :: 0 <= k < |xs| - 1 ==> xs[1..][k] == xs[k + 1];
        MergeSameKeys(key, key', xs[1..], ys);
      } else {
        assert forall k :: 0 <= k < |ys| - 1 ==> ys[1..][k] == ys[k + 1];
        MergeSameKeys(key, key', xs, ys[1..]);
      }
    }
  }

  // ---------------------------------------------------------------- Sort

  lemma {:induction false} InsertPermutation(key: seq<int>, x: nat, r: seq<nat>)
    ensures multiset(Insert(key, x, r)) == multiset{x} + multiset(r)
  {
    if r != [] && KeyOf(key, x) > KeyOf(key, r[0]) {
      InsertPermutation(key, x, r[1..]);
      assert r == [r[0]] + r[1..];
    }
  }

  lemma {:induction false} InsertSorted(key: seq<int>, x: nat, r: seq<nat>)
    requires Sorted(key, r)
    ensures Sorted(key, Insert(key, x, r))
  {
    if r == [] {
    } else if KeyOf(key, x) <= KeyOf(key, r[0]) {
      SortedCons(key, x, r);
    } else {
      SortedTail(key, r);
      InsertSorted(key, x, r[1..]);
      var rest := Insert(key, x, r[1..]);
      InsertPermutation(key, x, r[1..]);
      forall k | 0 <= k < |rest| ensures KeyOf(key, r[0]) <= KeyOf(key, rest[k]) {
        assert rest[k] in multiset(rest);
        if rest[k] != x {
          var i :| 0 <= i < |r[1..]| && r[1..][i] == rest[k];
          assert r[1..][i] == r[i + 1];
        }
      }
      SortedCons(key, r[0], rest);
    }
  }

  /** Inserting `x` adds it in front of the nodes that share its payload. */
  lemma {:induction false} InsertWithKey(key: seq<int>, v: int, x: nat, r: seq<nat>)
    ensures WithKey(key, v, Insert(key, x, r)) == WithKey(key, v, [x]) + WithKey(key, v, r)
  {
    if r == [] {
    } else if KeyOf(key, x) <= KeyOf(key, r[0]) {
      WithKeyAppend(key, v, [x], r);
    } else {
      var a, b, c := WithKey(key, v, [x]), WithKey(key, v, [r[0]]), WithKey(key, v, r[1..]);
      InsertWithKey(key, v, x, r[1..]);
      WithKeyAppend(key, v, [r[0]], Insert(key, x, r[1..]));
      WithKeyAppend(key, v, [r[0]], r[1..]);
      assert [r[0]] + r[1..] == r;
      // `x` and `r[0]` have different payloads, so at most one of them is kept
      assert a == [] || b == [];
      AppendAssoc(a, b, c);
      AppendAssoc(b, a, c);
      assert a + b == b + a;
    }
  }

  /** The reference sort is a permutation ... */
  lemma {:induction false} SortPermutation(key: seq<int>, s: seq<nat>)
    ensures multiset(Sort(key, s)) == multiset(s)
  {
    if s != [] {
      SortPermutation(key, s[1..]);
      InsertPermutation(key, s[0], Sort(key, s[1..]));
      assert s == [s[0]] + s[1..];
    }
  }

  /** ... that is ascending ... */
  lemma {:induction false} SortSorted(key: seq<int>, s: seq<nat>)
    ensures Sorted(key, Sort(key, s))
  {
    if s != [] {
      SortSorted(key, s[1..]);
      InsertSorted(key, s[0], Sort(key, s[1..]));
    }
  }

  /** ... and stable: nodes with equal payloads keep their input order. */
  lemma {:induction false} SortStable(key: seq<int>, v: int, s: seq<nat>)
    ensures WithKey(key, v, Sort(key, s)) == WithKey(key, v, s)
  {
    if s != [] {
      SortStable(key, v, s[1..]);
      InsertWithKey(key, v, s[0], Sort(key, s[1..]));
      WithKeyAppend(key, v, [s[0]], s[1..]);
      assert [s[0]] + s[1..] == s;
    }
  }

  /** Sorting an ascending sequence returns it unchanged, so sorting is idempotent. */
  lemma {:induction false} SortOfSorted(key: seq<int>, s: seq<nat>)
    requires Sorted(key, s)
    ensures Sort(key, s) == s
  {
    if s != [] {
      SortedTail(key, s);
      SortOfSorted(key, s[1..]);
      if |s| > 1 {
        assert KeyOf(key, s[0]) <= KeyOf(key, s[1]);
        assert s[1..] == [s[1]] + s[2..];
      }
    }
  }

  lemma SortIdempotent(key: seq<int>, s: seq<nat>)
    ensures Sort(key, Sort(key, s)) == Sort(key, s)
  {
    SortSorted(key, s);
    SortOfSorted(key, Sort(key, s));
  }

  /** Inserting into a merge is the same as inserting into its left input and then merging. */
  lemma {:induction false} InsertIntoMerge(key: seq<int>, x: nat, xs: seq<nat>, ys: seq<nat>)
    ensures Insert(key, x, Merge(key, xs, ys)) == Merge(key, Insert(key, x, xs), ys)
    decreases |xs| + |ys|
  {
    if xs == [] {
      InsertIsMergeOfOne(key, x, ys);
    } else if ys == [] {
    } else if CmpFunc(KeyOf(key, xs[0]), KeyOf(key, ys[0])) != Greater {
      if KeyOf(key, x) > KeyOf(key, xs[0]) {
        InsertIntoMerge(key, x, xs[1..], ys);
      }
    } else {
      if KeyOf(key, x) > KeyOf(key, ys[0]) {
        InsertIntoMerge(key, x, xs, ys[1..]);
      }
    }
  }

  lemma {:induction false} InsertIsMergeOfOne(key: seq<int>, x: nat, ys: seq<nat>)
    ensures Insert(key, x, ys) == Merge(key, [x], ys)
  {
    if ys != [] && KeyOf(key, x) > KeyOf(key, ys[0]) {
      InsertIsMergeOfOne(key, x, ys[1..]);
      assert [x][1..] == [];
    }
  }

  /**
   * The step list_sort relies on: merging the sorted runs of two adjacent
   * stretches of the input, left stretch on the left, gives the sorted run
   * of both stretches together.
   */
  lemma {:induction false} MergeOfSorts(key: seq<int>, s1: seq<nat>, s2: seq<nat>)
    ensures Merge(key, Sort(key, s1), Sort(key, s2)) == Sort(key, s1 + s2)
  {
    if s1 != [] {
      assert (s1 + s2)[0] == s1[0] && (s1 + s2)[1..] == s1[1..] + s2;
      MergeOfSorts(key, s1[1..], s2);
      InsertIntoMerge(key, s1[0], Sort(key, s1[1..]), Sort(key, s2));
    } else {
      assert s1 + s2 == s2;
    }
  }
}
