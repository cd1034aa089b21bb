/**
 * The bookkeeping of list_sort. The routine keeps a stack of pending runs:
 * each run is a list headed by a fresh sentinel and holds one stretch of the
 * input in sorted order; the stretches, bottom to top, lie end to end. When
 * the count of entries taken so far, with its trailing one bits stripped, is
 * not zero, the top two runs are merged before the next entry is pushed.
 */
module Runs {
  import opened Cycles
  import SortSpec

  /** `s` is a list in the link state `next`, `prev`, `stale`. */
  ghost predicate ListAt(next: seq<nat>, prev: seq<nat>, stale: set<nat>, s: seq<nat>) {
    IsCycle(next, prev, s) && forall x :: x in s ==> x !in stale
  }

  /** A list whose nodes all lie outside `t` survives a change that kept every link outside `t`. */
  lemma ListAtKept(n1: seq<nat>, p1: seq<nat>, st1: set<nat>, n2: seq<nat>, p2: seq<nat>, st2: set<nat>,
                   s: seq<nat>, t: seq<nat>)
    requires ListAt(n1, p1, st1, s) && Kept(n1, p1, n2, p2, t) && Disjoint(s, t)
    requires forall x :: x in st2 ==> x in st1 || x >= |n1|
    ensures ListAt(n2, p2, st2, s)
  {
    forall k | 0 <= k < |s|
      ensures s[k] < |n2| && s[k] < |p2| && n2[s[k]] == n1[s[k]] && p2[s[k]] == p1[s[k]]
    {
      assert s[k] !in t;
    }
    CycleFrame(n1, p1, n2, p2, s);
    forall x | x in s ensures x !in st2 {
      var k :| 0 <= k < |s| && s[k] == x;
      assert x < |n1|;
    }
  }

  /** The stretches `segs` laid end to end. */
  function Concat(segs: seq<seq<nat>>): seq<nat> {
    if segs == [] then [] else Concat(segs[..|segs| - 1]) + segs[|segs| - 1]
  }

  lemma ConcatPush(segs: seq<seq<nat>>, s: seq<nat>)
    ensures Concat(segs + [s]) == Concat(segs) + s
  {
    assert (segs + [s])[..|segs|] == segs;
  }

  /** Merging the top two runs keeps the stretches laid end to end. */
  lemma ConcatMergeTop(lower: seq<seq<nat>>, x: seq<nat>, y: seq<nat>)
    ensures Concat(lower + [x + y]) == Concat(lower + [x] + [y])
  {
    ConcatPush(lower, x + y);
    ConcatPush(lower + [x], y);
    ConcatPush(lower, x);
    assert Concat(lower) + x + y == Concat(lower) + (x + y);
  }

  lemma {:induction false} ConcatMember(segs: seq<seq<nat>>, k: nat, x: nat)
    requires k < |segs| && x in segs[k]
    ensures x in Concat(segs)
    decreases |segs|
  {
    var n := |segs|;
    if k < n - 1 {
      ConcatMember(segs[..n - 1], k, x);
    }
  }

  lemma DistinctParts(a: seq<nat>, b: seq<nat>)
    requires Distinct(a + b)
    ensures Distinct(a) && Disjoint(a, b)
  {
    forall i, j | 0 <= i < j < |a| ensures a[i] != a[j] {
      assert (a + b)[i] == a[i] && (a + b)[j] == a[j];
    }
    forall k | 0 <= k < |a| ensures a[k] !in b {
      forall m | 0 <= m < |b| ensures b[m] != a[k] {
        assert (a + b)[k] == a[k] && (a + b)[|a| + m] == b[m];
      }
    }
  }

  /** Distinct stretches laid end to end share no node. */
  lemma {:induction false} ConcatApart(segs: seq<seq<nat>>, i: nat, j: nat, x: nat)
    requires Distinct(Concat(segs)) && i < j < |segs| && x in segs[i]
    ensures x !in segs[j]
    decreases |segs|
  {
    var n := |segs|;
    DistinctParts(Concat(segs[..n - 1]), segs[n - 1]);
    if j == n - 1 {
      ConcatMember(segs[..n - 1], i, x);
      assert x !in segs[n - 1] by {
        var k :| 0 <= k < |Concat(segs[..n - 1])| && Concat(segs[..n - 1])[k] == x;
      }
    } else {
      ConcatApart(segs[..n - 1], i, j, x);
    }
  }

  lemma SortMembers(key: seq<int>, s: seq<nat>, x: nat)
    ensures |SortSpec.Sort(key, s)| == |s|
    ensures x in SortSpec.Sort(key, s) <==> x in s
  {
    SortSpec.SortPermutation(key, s);
    assert |multiset(SortSpec.Sort(key, s))| == |multiset(s)|;
    assert x in SortSpec.Sort(key, s) <==> x in multiset(SortSpec.Sort(key, s));
  }

  /** The list of a pending run: its sentinel `p`, then the stretch `seg` in sorted order. */
  function PendingList(key0: seq<int>, p: nat, seg: seq<nat>): (r: seq<nat>)
    ensures |r| > 0 && r[0] == p && r[1..] == SortSpec.Sort(key0, seg)
  {
    [p] + SortSpec.Sort(key0, seg)
  }

  /** Every pending run is a list in the given link state. */
  ghost predicate RunsAt(next: seq<nat>, prev: seq<nat>, stale: set<nat>, key0: seq<int>,
                         pending: seq<nat>, segs: seq<seq<nat>>) {
    forall k :: 0 <= k < |pending| && k < |segs| ==> ListAt(next, prev, stale, PendingList(key0, pending[k], segs[k]))
  }

  /**
   * Two pending runs share no node, when the sentinels are distinct and at
   * least `bound`, and the stretches are distinct nodes below `bound`.
   */
  lemma RunsApart(key0: seq<int>, pending: seq<nat>, segs: seq<seq<nat>>, bound: nat, i: nat, j: nat)
    requires |pending| == |segs| && Distinct(pending) && Distinct(Concat(segs))
    requires forall k :: 0 <= k < |pending| ==> bound <= pending[k]
    requires forall x :: x in Concat(segs) ==> x < bound
    requires i < |pending| && j < |pending| && i != j
    ensures Disjoint(PendingList(key0, pending[i], segs[i]), PendingList(key0, pending[j], segs[j]))
  {
    var li, lj := PendingList(key0, pending[i], segs[i]), PendingList(key0, pending[j], segs[j]);
    forall k | 0 <= k < |li| ensures li[k] !in lj {
      var x := li[k];
      SortMembers(key0, segs[i], x);
      SortMembers(key0, segs[j], x);
      assert x in li <==> x == pending[i] || x in segs[i];
      assert x in lj <==> x == pending[j] || x in segs[j];
      assert x != pending[j] by {
        if x != pending[i] {
          ConcatMember(segs, i, x);
        }
      }
      assert x !in segs[j] by {
        if x == pending[i] {
          if x in segs[j] {
            ConcatMember(segs, j, x);
          }
        } else if i < j {
          ConcatApart(segs, i, j, x);
        } else if x in segs[j] {
          ConcatApart(segs, j, i, x);
        }
      }
    }
  }

  /** The runs below `m` all survive a change that kept every link outside `t`, a list apart from each. */
  lemma RunsKept(n1: seq<nat>, p1: seq<nat>, st1: set<nat>, n2: seq<nat>, p2: seq<nat>, st2: set<nat>,
                 key0: seq<int>, pending: seq<nat>, segs: seq<seq<nat>>, m: nat, t: seq<nat>)
    requires m <= |pending| && m <= |segs| && RunsAt(n1, p1, st1, key0, pending, segs)
    requires Kept(n1, p1, n2, p2, t) && forall x :: x in st2 ==> x in st1 || x >= |n1|
    requires forall k :: 0 <= k < m ==> Disjoint(PendingList(key0, pending[k], segs[k]), t)
    ensures forall k :: 0 <= k < m ==> ListAt(n2, p2, st2, PendingList(key0, pending[k], segs[k]))
  {
    forall k | 0 <= k < m ensures ListAt(n2, p2, st2, PendingList(key0, pending[k], segs[k])) {
      ListAtKept(n1, p1, st1, n2, p2, st2, PendingList(key0, pending[k], segs[k]), t);
    }
  }

  /** `c` with its trailing one bits shifted out. */
  function StripOnes(c: nat): nat
    decreases c
  {
    if c % 2 == 1 then StripOnes(c / 2) else c
  }

  ghost predicate IsPow2(n: nat)
    decreases n
  {
    n == 1 || (n > 1 && n % 2 == 0 && IsPow2(n / 2))
  }

  /** No merge happens exactly when `c + 1` is a power of two. */
  lemma {:induction false} StripOnesZero(c: nat)
    ensures StripOnes(c) == 0 <==> IsPow2(c + 1)
    decreases c
  {
    if c % 2 == 1 {
      StripOnesZero(c / 2);
      assert (c + 1) / 2 == c / 2 + 1;
    }
  }

  /** The inner loop of list_sort: shifts `count` right while its low bit is set. */
  method StripTrailingOnes(count: nat) returns (bits: nat)
    ensures bits == StripOnes(count)
    ensures bits % 2 == 0
  {
    bits := count;
    while bits % 2 == 1
      invariant StripOnes(bits) == StripOnes(count)
      decreases bits
    {
      bits := bits / 2;
    }
  }

  /**
   * The elements a sentinel-headed list contributes to `merge` and
   * `list_sort`. An empty list contributes its own sentinel: both routines
   * start from `head.next`, which is the sentinel itself when the list is
   * empty, and treat that node as data.
   */
  function Elements(l: seq<nat>): seq<nat>
    requires |l| > 0
  {
    if |l| == 1 then l else l[1..]
  }

  /**
   * What is left of the input list `l` of list_sort once `done` entries are
   * taken: the sentinel followed by the entries not yet taken.
   */
  function Remaining(l: seq<nat>, done: nat): seq<nat>
    requires 1 + done <= |l|
  {
    [l[0]] + l[1 + done..]
  }

  /**
   * The state of list_sort once `done` entries of the list `l` are taken:
   * `pending` holds the sentinels of the runs, bottom first, and `segs` the
   * stretches of the input they hold, which laid end to end are the entries
   * taken so far. The rest of `l` is still a list, and no link outside `l`
   * has changed since `n0`, `p0`. The payloads `key0` of the input are kept;
   * every node made since lies at `|key0|` or above.
   */
  ghost predicate SortInv(next: seq<nat>, prev: seq<nat>, stale: set<nat>, item: seq<int>,
                          key0: seq<int>, n0: seq<nat>, p0: seq<nat>, l: seq<nat>, done: nat,
                          pending: seq<nat>, segs: seq<seq<nat>>) {
    && SortShape(|next|, item, key0, n0, l, done, pending, segs)
    && RunsAt(next, prev, stale, key0, pending, segs)
    && ((|l| > 1 || done == 0) ==> ListAt(next, prev, stale, Remaining(l, done)))
    && Kept(n0, p0, next, prev, l)
  }

  /**
   * The part of the state of list_sort that does not depend on the links:
   * the stretches of the runs lie end to end and make up the first `done`
   * entries, and the sentinels are distinct nodes allocated since the start,
   * below `size`.
   */
  ghost predicate SortShape(size: nat, item: seq<int>, key0: seq<int>, n0: seq<nat>, l: seq<nat>, done: nat,
                            pending: seq<nat>, segs: seq<seq<nat>>) {
    && |l| > 0 && Distinct(l) && |key0| == |n0| && |key0| <= size
    && |key0| <= |item| && item[..|key0|] == key0
    && (forall k :: 0 <= k < |l| ==> l[k] < |key0|)
    && done <= |Elements(l)| && |pending| == |segs| && Concat(segs) == Elements(l)[..done]
    && Distinct(pending) && (forall k :: 0 <= k < |pending| ==> |key0| <= pending[k] < size)
    && (forall k :: 0 <= k < |segs| ==> segs[k] != [])
  }

  /** The entries taken are distinct nodes of `l`, apart from what remains. */
  lemma Taken(l: seq<nat>, done: nat, bound: nat)
    requires |l| > 0 && Distinct(l) && done <= |Elements(l)| && forall k :: 0 <= k < |l| ==> l[k] < bound
    ensures Distinct(Elements(l)[..done])
    ensures forall z :: z in Elements(l)[..done] ==> z in l && z < bound
    ensures 1 + done <= |l| ==> forall z :: z in Remaining(l, done) ==> z in l && z < bound
    ensures |l| > 1 ==> Disjoint(Elements(l)[..done], Remaining(l, done))
  {
    if |l| == 1 {
      SliceDistinct(l, 0, done);
    } else {
      assert Elements(l)[..done] == l[1..1 + done];
      SliceApart(l, 1 + done);
      SliceDistinct(l, 1, 1 + done);
    }
  }

  /** A stretch of a distinct sequence is distinct. */
  lemma SliceDistinct(l: seq<nat>, i: nat, j: nat)
    requires Distinct(l) && i <= j <= |l|
    ensures Distinct(l[i..j]) && forall z :: z in l[i..j] ==> z in l
  {
    forall a, b | 0 <= a < b < j - i ensures l[i..j][a] != l[i..j][b] {
      assert l[i..j][a] == l[i + a] && l[i..j][b] == l[i + b];
    }
  }

  /** In a distinct sequence the stretch from 1 to `j` shares no node with the head and the tail from `j`. */
  lemma SliceApart(l: seq<nat>, j: nat)
    requires Distinct(l) && 1 <= j <= |l|
    ensures Disjoint(l[1..j], [l[0]] + l[j..])
    ensures forall z :: z in [l[0]] + l[j..] ==> z in l
  {
    var r := [l[0]] + l[j..];
    forall a | 0 <= a < j - 1 ensures l[1..j][a] !in r {
      forall b | 0 <= b < |r| ensures r[b] != l[1 + a] {
        if b > 0 {
          assert r[b] == l[j + b - 1];
        }
      }
    }
    forall z | z in r ensures z in l {
      var b :| 0 <= b < |r| && r[b] == z;
      if b > 0 {
        assert r[b] == l[j + b - 1];
      }
    }
  }

  /** A node of a pending run is its sentinel, or an entry already taken. */
  lemma SortInvMember(next: seq<nat>, prev: seq<nat>, stale: set<nat>, item: seq<int>,
                      key0: seq<int>, n0: seq<nat>, p0: seq<nat>, l: seq<nat>, done: nat,
                      pending: seq<nat>, segs: seq<seq<nat>>, k: nat, z: nat)
    requires SortInv(next, prev, stale, item, key0, n0, p0, l, done, pending, segs) && k < |pending|
    requires z in PendingList(key0, pending[k], segs[k])
    ensures z == pending[k] || (z in segs[k] && z in Elements(l)[..done] && z in l && z < |key0|)
  {
    SortMembers(key0, segs[k], z);
    Taken(l, done, |key0|);
    if z != pending[k] {
      ConcatMember(segs, k, z);
    }
  }

  /** The entries of a pending run still carry the payloads they had in the input. */
  lemma RunKeys(next: seq<nat>, prev: seq<nat>, stale: set<nat>, item: seq<int>,
                key0: seq<int>, n0: seq<nat>, p0: seq<nat>, l: seq<nat>, done: nat,
                pending: seq<nat>, segs: seq<seq<nat>>, k: nat)
    requires SortInv(next, prev, stale, item, key0, n0, p0, l, done, pending, segs) && k < |pending|
    ensures var r := SortSpec.Sort(key0, segs[k]);
      forall i :: 0 <= i < |r| ==> SortSpec.KeyOf(item, r[i]) == SortSpec.KeyOf(key0, r[i])
  {
    var r := SortSpec.Sort(key0, segs[k]);
    forall i | 0 <= i < |r| ensures SortSpec.KeyOf(item, r[i]) == SortSpec.KeyOf(key0, r[i]) {
      assert r[i] in PendingList(key0, pending[k], segs[k]);
      SortInvMember(next, prev, stale, item, key0, n0, p0, l, done, pending, segs, k, r[i]);
    }
  }

  /** Two pending runs share no node. */
  lemma SortInvApart(next: seq<nat>, prev: seq<nat>, stale: set<nat>, item: seq<int>,
                     key0: seq<int>, n0: seq<nat>, p0: seq<nat>, l: seq<nat>, done: nat,
                     pending: seq<nat>, segs: seq<seq<nat>>, i: nat, j: nat)
    requires SortInv(next, prev, stale, item, key0, n0, p0, l, done, pending, segs)
    requires i < |pending| && j < |pending| && i != j
    ensures Disjoint(PendingList(key0, pending[i], segs[i]), PendingList(key0, pending[j], segs[j]))
  {
    Taken(l, done, |key0|);
    RunsApart(key0, pending, segs, |key0|, i, j);
  }

  /** A pending run shares no node with what remains of the input. */
  lemma SortInvRestApart(next: seq<nat>, prev: seq<nat>, stale: set<nat>, item: seq<int>,
                         key0: seq<int>, n0: seq<nat>, p0: seq<nat>, l: seq<nat>, done: nat,
                         pending: seq<nat>, segs: seq<seq<nat>>, k: nat)
    requires SortInv(next, prev, stale, item, key0, n0, p0, l, done, pending, segs)
    requires k < |pending| && (|l| > 1 || done == 0)
    ensures Disjoint(PendingList(key0, pending[k], segs[k]), Remaining(l, done))
    ensures Disjoint(Remaining(l, done), PendingList(key0, pending[k], segs[k]))
  {
    var run, r := PendingList(key0, pending[k], segs[k]), Remaining(l, done);
    Taken(l, done, |key0|);
    forall z | z in run ensures z !in r {
      SortInvMember(next, prev, stale, item, key0, n0, p0, l, done, pending, segs, k, z);
      if z != pending[k] && |l| > 1 {
        var i :| 0 <= i < done && Elements(l)[..done][i] == z;
      }
    }
    assert Disjoint(run, r) by {
      forall i | 0 <= i < |run| ensures run[i] !in r {
        assert run[i] in run;
      }
    }
    forall i | 0 <= i < |r| ensures r[i] !in run {
      assert r[i] in r;
    }
  }

  /** The merged run holds the two stretches of the top two runs in sorted order. */
  lemma MergedRun(n1: seq<nat>, p1: seq<nat>, st1: set<nat>, it1: seq<int>,
                  n2: seq<nat>, p2: seq<nat>, st2: set<nat>,
                  key0: seq<int>, n0: seq<nat>, p0: seq<nat>, l: seq<nat>, done: nat,
                  pending: seq<nat>, segs: seq<seq<nat>>, h: nat)
    requires SortInv(n1, p1, st1, it1, key0, n0, p0, l, done, pending, segs) && |pending| >= 2
    requires ListAt(n2, p2, st2, [h] + SortSpec.Merge(it1,
               Elements(PendingList(key0, pending[|pending| - 2], segs[|pending| - 2])),
               Elements(PendingList(key0, pending[|pending| - 1], segs[|pending| - 1]))))
    ensures ListAt(n2, p2, st2, PendingList(key0, h, segs[|pending| - 2] + segs[|pending| - 1]))
  {
    var m := |pending|;
    var x, y := segs[m - 2], segs[m - 1];
    SortMembers(key0, x, 0);
    SortMembers(key0, y, 0);
    var sx, sy := SortSpec.Sort(key0, x), SortSpec.Sort(key0, y);
    assert Elements(PendingList(key0, pending[m - 2], x)) == sx;
    assert Elements(PendingList(key0, pending[m - 1], y)) == sy;
    RunKeys(n1, p1, st1, it1, key0, n0, p0, l, done, pending, segs, m - 2);
    RunKeys(n1, p1, st1, it1, key0, n0, p0, l, done, pending, segs, m - 1);
    SortSpec.MergeSameKeys(it1, key0, sx, sy);
    SortSpec.MergeOfSorts(key0, x, y);
  }

  /**
   * A change that relinks only nodes of `t`, where `t` lies in the top
   * `m - j` runs and below `|n0|` in the input, keeps the runs below `j`,
   * what remains of the input, and every link outside `l`.
   */
  lemma RunsBelowKept(n1: seq<nat>, p1: seq<nat>, st1: set<nat>, it1: seq<int>,
                      n2: seq<nat>, p2: seq<nat>, st2: set<nat>,
                      key0: seq<int>, n0: seq<nat>, p0: seq<nat>, l: seq<nat>, done: nat,
                      pending: seq<nat>, segs: seq<seq<nat>>, j: nat, t: seq<nat>)
    requires SortInv(n1, p1, st1, it1, key0, n0, p0, l, done, pending, segs) && |pending| >= j
    requires Kept(n1, p1, n2, p2, t) && forall x :: x in st2 ==> x in st1 || x >= |n1|
    requires forall z :: z in t ==> exists k :: j <= k < |pending| && z in PendingList(key0, pending[k], segs[k])
    ensures RunsAt(n2, p2, st2, key0, pending[..j], segs[..j])
    ensures |l| > 1 || done == 0 ==> ListAt(n2, p2, st2, Remaining(l, done))
    ensures Kept(n0, p0, n2, p2, l)
  {
    forall k | 0 <= k < j ensures Disjoint(PendingList(key0, pending[k], segs[k]), t) {
      var run := PendingList(key0, pending[k], segs[k]);
      forall i | 0 <= i < |run| ensures run[i] !in t {
        if run[i] in t {
          var k' :| j <= k' < |pending| && run[i] in PendingList(key0, pending[k'], segs[k']);
          SortInvApart(n1, p1, st1, it1, key0, n0, p0, l, done, pending, segs, k, k');
        }
      }
    }
    RunsKept(n1, p1, st1, n2, p2, st2, key0, pending, segs, j, t);
    assert RunsAt(n2, p2, st2, key0, pending[..j], segs[..j]) by {
      forall k | 0 <= k < j ensures pending[..j][k] == pending[k] && segs[..j][k] == segs[k] {
      }
    }
    if |l| > 1 || done == 0 {
      var r := Remaining(l, done);
      forall i | 0 <= i < |r| ensures r[i] !in t {
        if r[i] in t {
          var k' :| j <= k' < |pending| && r[i] in PendingList(key0, pending[k'], segs[k']);
          SortInvRestApart(n1, p1, st1, it1, key0, n0, p0, l, done, pending, segs, k');
        }
      }
      ListAtKept(n1, p1, st1, n2, p2, st2, r, t);
    }
    forall z | z in t && z < |n0| && z < |p0| ensures z in l {
      var k' :| j <= k' < |pending| && z in PendingList(key0, pending[k'], segs[k']);
      SortInvMember(n1, p1, st1, it1, key0, n0, p0, l, done, pending, segs, k', z);
    }
    KeptTrans(n0, p0, n1, p1, n2, p2, l, t);
  }

  /** Pushing a run that is a list keeps every run a list. */
  lemma RunsPush(next: seq<nat>, prev: seq<nat>, stale: set<nat>, key0: seq<int>,
                 pending: seq<nat>, segs: seq<seq<nat>>, p: nat, seg: seq<nat>)
    requires RunsAt(next, prev, stale, key0, pending, segs) && |pending| == |segs|
    requires ListAt(next, prev, stale, PendingList(key0, p, seg))
    ensures RunsAt(next, prev, stale, key0, pending + [p], segs + [seg])
  {
    forall k | 0 <= k < |pending| + 1
      ensures ListAt(next, prev, stale, PendingList(key0, (pending + [p])[k], (segs + [seg])[k]))
    {
      if k < |pending| {
        assert (pending + [p])[k] == pending[k] && (segs + [seg])[k] == segs[k];
      }
    }
  }

  /**
   * The merge of the top two runs, `b` below `a`, into a run headed by the
   * new sentinel `h` keeps the state of list_sort: the merged run holds the
   * two stretches in sorted order.
   */
  lemma MergeTopInv(n1: seq<nat>, p1: seq<nat>, st1: set<nat>, it1: seq<int>,
                    n2: seq<nat>, p2: seq<nat>, st2: set<nat>, it2: seq<int>,
                    key0: seq<int>, n0: seq<nat>, p0: seq<nat>, l: seq<nat>, done: nat,
                    pending: seq<nat>, segs: seq<seq<nat>>, h: nat)
    requires SortInv(n1, p1, st1, it1, key0, n0, p0, l, done, pending, segs) && |pending| >= 2
    requires h == |n1| && |n2| == h + 2 && it2 == it1 + [0, -1] && st2 == st1 + {h + 1}
    requires ListAt(n2, p2, st2, [h] + SortSpec.Merge(it1,
               Elements(PendingList(key0, pending[|pending| - 2], segs[|pending| - 2])),
               Elements(PendingList(key0, pending[|pending| - 1], segs[|pending| - 1]))))
    requires Kept(n1, p1, n2, p2, PendingList(key0, pending[|pending| - 2], segs[|pending| - 2])
                                  + PendingList(key0, pending[|pending| - 1], segs[|pending| - 1]))
    ensures SortInv(n2, p2, st2, it2, key0, n0, p0, l, done, pending[..|pending| - 2] + [h],
                    segs[..|pending| - 2] + [segs[|pending| - 2] + segs[|pending| - 1]])
  {
    var m := |pending|;
    var lb, la := PendingList(key0, pending[m - 2], segs[m - 2]), PendingList(key0, pending[m - 1], segs[m - 1]);
    var lower, x, y := segs[..m - 2], segs[m - 2], segs[m - 1];
    MergedRun(n1, p1, st1, it1, n2, p2, st2, key0, n0, p0, l, done, pending, segs, h);
    assert forall z :: z in lb + la ==> exists k :: m - 2 <= k < m && z in PendingList(key0, pending[k], segs[k]) by {
      forall z | z in lb + la ensures exists k :: m - 2 <= k < m && z in PendingList(key0, pending[k], segs[k]) {
        if z in lb {
          assert m - 2 <= m - 2 < m && z in PendingList(key0, pending[m - 2], segs[m - 2]);
        } else {
          assert m - 2 <= m - 1 < m && z in PendingList(key0, pending[m - 1], segs[m - 1]);
        }
      }
    }
    RunsBelowKept(n1, p1, st1, it1, n2, p2, st2, key0, n0, p0, l, done, pending, segs, m - 2, lb + la);
    RunsPush(n2, p2, st2, key0, pending[..m - 2], lower, h, x + y);
    MergeTopShape(|n1|, it1, it2, key0, n0, l, done, pending, segs);
  }

  /** The shape part of the state survives the merge of the top two runs into a run headed by the node `size`. */
  lemma MergeTopShape(size: nat, it1: seq<int>, it2: seq<int>, key0: seq<int>, n0: seq<nat>, l: seq<nat>, done: nat,
                      pending: seq<nat>, segs: seq<seq<nat>>)
    requires SortShape(size, it1, key0, n0, l, done, pending, segs) && |pending| >= 2 && it2 == it1 + [0, -1]
    ensures SortShape(size + 2, it2, key0, n0, l, done, pending[..|pending| - 2] + [size],
                      segs[..|pending| - 2] + [segs[|pending| - 2] + segs[|pending| - 1]])
  {
    var m := |pending|;
    var lower, x, y := segs[..m - 2], segs[m - 2], segs[m - 1];
    assert segs == lower + [x] + [y];
    ConcatMergeTop(lower, x, y);
    assert forall k :: 0 <= k < m - 2 ==> pending[..m - 2][k] == pending[k] < size;
    assert it2[..|key0|] == it1[..|key0|];
  }

  /**
   * Taking the entry `list` off the input and pushing it as a run of its
   * own, headed by the new sentinel `tmp`, keeps the state of list_sort.
   * The link states are those after list_del_init (`n2`) and after the
   * new node is made and `list` added behind it (`n4`).
   */
  lemma PushInv(n1: seq<nat>, p1: seq<nat>, st1: set<nat>, it1: seq<int>,
                n2: seq<nat>, p2: seq<nat>, n4: seq<nat>, p4: seq<nat>, st4: set<nat>, it4: seq<int>,
                key0: seq<int>, n0: seq<nat>, p0: seq<nat>, l: seq<nat>, done: nat,
                pending: seq<nat>, segs: seq<seq<nat>>, list: nat, tmp: nat)
    requires SortInv(n1, p1, st1, it1, key0, n0, p0, l, done, pending, segs)
    requires done < |Elements(l)| && list == Elements(l)[done] && (|l| > 1 || done == 0)
    requires Kept(n1, p1, n2, p2, Remaining(l, done)) && |n2| == |n1|
    requires |l| > 1 ==> ListAt(n2, p2, st1, Remaining(l, done + 1))
    requires tmp == |n2| && |n4| == tmp + 1 && Kept(n2, p2, n4, p4, [list])
    requires ListAt(n4, p4, st4, [tmp] + [list]) && st4 == st1 - {list} && it4 == it1 + [-1]
    ensures SortInv(n4, p4, st4, it4, key0, n0, p0, l, done + 1, pending + [tmp], segs + [[list]])
  {
    PushLinks(n1, p1, st1, it1, n2, p2, n4, p4, st4, key0, n0, p0, l, done, pending, segs, list, tmp);
    assert SortSpec.Sort(key0, [list]) == [list];
    RunsPush(n4, p4, st4, key0, pending, segs, tmp, [list]);
    PushShape(|n1|, it1, it4, key0, n0, l, done, pending, segs, list);
  }

  /** The links part of the state, but for the new run, survives taking `list` off the input and pushing it. */
  lemma PushLinks(n1: seq<nat>, p1: seq<nat>, st1: set<nat>, it1: seq<int>,
                  n2: seq<nat>, p2: seq<nat>, n4: seq<nat>, p4: seq<nat>, st4: set<nat>,
                  key0: seq<int>, n0: seq<nat>, p0: seq<nat>, l: seq<nat>, done: nat,
                  pending: seq<nat>, segs: seq<seq<nat>>, list: nat, tmp: nat)
    requires SortInv(n1, p1, st1, it1, key0, n0, p0, l, done, pending, segs)
    requires done < |Elements(l)| && list == Elements(l)[done] && (|l| > 1 || done == 0)
    requires Kept(n1, p1, n2, p2, Remaining(l, done)) && |n2| == |n1|
    requires |l| > 1 ==> ListAt(n2, p2, st1, Remaining(l, done + 1))
    requires tmp == |n2| && Kept(n2, p2, n4, p4, [list]) && st4 == st1 - {list}
    ensures RunsAt(n4, p4, st4, key0, pending, segs)
    ensures Kept(n0, p0, n4, p4, l)
    ensures |l| > 1 ==> ListAt(n4, p4, st4, Remaining(l, done + 1))
  {
    var rem := Remaining(l, done);
    KeptUnion(n1, p1, n2, p2, n4, p4, rem, [list]);
    PushKept(n1, p1, st1, it1, n4, p4, st4, key0, n0, p0, l, done, pending, segs, list, rem + [list]);
    assert |l| > 1 ==> ListAt(n4, p4, st4, Remaining(l, done + 1)) by {
      if |l| > 1 {
        PushRest(n2, p2, n4, p4, st1, st4, l, done, list, |key0|);
      }
    }
  }

  /** The shape part of the state survives pushing the entry `list` as a run headed by the node `size`. */
  lemma PushShape(size: nat, it1: seq<int>, it2: seq<int>, key0: seq<int>, n0: seq<nat>, l: seq<nat>, done: nat,
                  pending: seq<nat>, segs: seq<seq<nat>>, list: nat)
    requires SortShape(size, it1, key0, n0, l, done, pending, segs) && it2 == it1 + [-1]
    requires done < |Elements(l)| && list == Elements(l)[done]
    ensures SortShape(size + 1, it2, key0, n0, l, done + 1, pending + [size], segs + [[list]])
  {
    var e := Elements(l);
    ConcatPush(segs, [list]);
    assert e[..done] + [list] == e[..done + 1];
    assert it2[..|key0|] == it1[..|key0|];
    assert forall k :: 0 <= k < |pending| ==> (pending + [size])[k] == pending[k] < size;
  }

  /** The runs and the frame survive the relinking of `t`: what remains of the input, a fresh node, and the taken entry. */
  lemma PushKept(n1: seq<nat>, p1: seq<nat>, st1: set<nat>, it1: seq<int>,
                 n4: seq<nat>, p4: seq<nat>, st4: set<nat>,
                 key0: seq<int>, n0: seq<nat>, p0: seq<nat>, l: seq<nat>, done: nat,
                 pending: seq<nat>, segs: seq<seq<nat>>, list: nat, t: seq<nat>)
    requires SortInv(n1, p1, st1, it1, key0, n0, p0, l, done, pending, segs)
    requires done < |Elements(l)| && list == Elements(l)[done] && (|l| > 1 || done == 0)
    requires Kept(n1, p1, n4, p4, t) && forall x :: x in st4 ==> x in st1
    requires forall z :: z in t ==> z in Remaining(l, done) || z >= |n1| || z == list
    ensures RunsAt(n4, p4, st4, key0, pending, segs)
    ensures Kept(n0, p0, n4, p4, l)
  {
    var rem := Remaining(l, done);
    Taken(l, done, |key0|);
    assert list in rem by {
      if |l| > 1 {
        assert rem[1] == list;
      }
    }
    forall k | 0 <= k < |pending| ensures Disjoint(PendingList(key0, pending[k], segs[k]), t) {
      SortInvRestApart(n1, p1, st1, it1, key0, n0, p0, l, done, pending, segs, k);
      var run := PendingList(key0, pending[k], segs[k]);
      forall i | 0 <= i < |run| ensures run[i] !in t {
        assert run[i] < |n1|;
      }
    }
    RunsKept(n1, p1, st1, n4, p4, st4, key0, pending, segs, |pending|, t);
    forall z | z in t && z < |n0| && z < |p0| ensures z in l {
    }
    KeptTrans(n0, p0, n1, p1, n4, p4, l, t);
  }

  /** What remains of the input once `list` is taken survives a change that relinks only `list` below `|n2|`. */
  lemma PushRest(n2: seq<nat>, p2: seq<nat>, n4: seq<nat>, p4: seq<nat>,
                 st1: set<nat>, st4: set<nat>, l: seq<nat>, done: nat, list: nat, bound: nat)
    requires |l| > 1 && Distinct(l) && done < |Elements(l)| && list == Elements(l)[done]
    requires forall k :: 0 <= k < |l| ==> l[k] < bound
    requires ListAt(n2, p2, st1, Remaining(l, done + 1))
    requires Kept(n2, p2, n4, p4, [list]) && forall x :: x in st4 ==> x in st1
    ensures ListAt(n4, p4, st4, Remaining(l, done + 1))
  {
    var rest := Remaining(l, done + 1);
    Taken(l, done + 1, bound);
    forall i | 0 <= i < |rest| ensures rest[i] !in [list] {
      assert rest[i] in rest;
      assert Elements(l)[..done + 1][done] == list;
    }
    ListAtKept(n2, p2, st1, n4, p4, st4, rest, [list]);
  }

  /** The entry to take next sits after the input sentinel; after it comes the following entry, or the sentinel. */
  lemma NextInRemaining(next: seq<nat>, prev: seq<nat>, stale: set<nat>, l: seq<nat>, done: nat)
    requires |l| > 0 && Distinct(l) && done < |Elements(l)| && (|l| > 1 || done == 0)
    requires ListAt(next, prev, stale, Remaining(l, done))
    ensures Remaining(l, done)[if |l| > 1 then 1 else 0] == Elements(l)[done]
    ensures Elements(l)[done] < |next|
    ensures next[Elements(l)[done]] == if done + 1 < |Elements(l)| then Elements(l)[done + 1] else l[0]
    ensures done + 1 < |Elements(l)| ==> Elements(l)[done + 1] != l[0]
  {
    var r := Remaining(l, done);
    var j := if |l| > 1 then 1 else 0;
    assert LinkedAt(next, prev, r, j);
    if done + 1 < |Elements(l)| {
      assert r[j + 1] == Elements(l)[done + 1] == l[done + 2];
    }
  }

  /** The first entry of a list follows its sentinel; an empty list's sentinel follows itself. */
  lemma FirstEntry(next: seq<nat>, prev: seq<nat>, stale: set<nat>, l: seq<nat>)
    requires |l| > 0 && ListAt(next, prev, stale, Remaining(l, 0))
    ensures l[0] < |next| && next[l[0]] == Elements(l)[0]
  {
    assert LinkedAt(next, prev, Remaining(l, 0), 0);
  }

  /** The state of list_sort before the first entry is taken. */
  lemma SortStart(next: seq<nat>, prev: seq<nat>, stale: set<nat>, item: seq<int>, l: seq<nat>)
    requires ListAt(next, prev, stale, l) && |item| == |next|
    ensures SortInv(next, prev, stale, item, item, next, prev, l, 0, [], [])
  {
    assert item[..|item|] == item;
    assert Concat([]) == [] == Elements(l)[..0];
    assert Remaining(l, 0) == l;
  }

  /**
   * When the input is done and one run is left, that run holds the whole
   * input in sorted order, and the input sentinel is an empty list.
   */
  lemma SortDone(next: seq<nat>, prev: seq<nat>, stale: set<nat>, item: seq<int>,
                 key0: seq<int>, n0: seq<nat>, p0: seq<nat>, l: seq<nat>,
                 pending: seq<nat>, segs: seq<seq<nat>>)
    requires |l| > 0 && SortInv(next, prev, stale, item, key0, n0, p0, l, |Elements(l)|, pending, segs)
    requires |pending| == 1
    ensures ListAt(next, prev, stale, [pending[0]] + SortSpec.Sort(key0, Elements(l)))
    ensures |l| > 1 ==> ListAt(next, prev, stale, [l[0]])
  {
    assert segs[..0] == [];
    assert Concat(segs) == segs[0];
    assert Elements(l)[..|Elements(l)|] == Elements(l);
    if |l| > 1 {
      assert Remaining(l, |Elements(l)|) == [l[0]];
    }
  }
}
