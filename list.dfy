/**
 * The list kit of src/list.rs as an arena of nodes. Node `x` has the links
 * `next[x]` and `prev[x]` and the payload `item[x]`; a node handle is its
 * index. `new` appends a node, so handles stay valid for good, as an `Rc`
 * does. A list is a ghost sequence `s` of handles with `IsList(s)`: its head
 * (sentinel) is `s[0]` and the entries follow in forward order.
 *
 * `stale` holds the nodes whose links the kit leaves pointing into a list they
 * no longer belong to (an entry taken off with `__list_del_entry`, the node
 * replaced by `list_replace`, the sentinel spliced away). `Valid()` says every
 * other node is consistently linked with non-stale neighbours.
 */
module List {
  import opened Compare
  import opened Cycles
  import SortSpec
  import opened Runs

  datatype Option<T> = None | Some(value: T)

  /**
   * The sequences list_swap passes through when it swaps positions `i` and `j`
   * of the list `s`: `s1` after taking `s[j]` off, `s2` after `s[j]` replaces
   * `s[i]`, and `q1`, the position in `s2` after which `s[i]` is re-inserted.
   * Re-inserting there swaps the two nodes (up to rotation when `j` is 0).
   */
  lemma SwapShape(s: seq<nat>, i: nat, j: nat) returns (s1: seq<nat>, i1: nat, s2: seq<nat>, q1: nat)
    requires Distinct(s) && i < |s| && j < |s| && i != j
    ensures s1 == s[..j] + s[j + 1..] && i1 < |s1| && s1[i1] == s[i] && s2 == s1[i1 := s[j]]
    ensures q1 < |s2| && s2[q1] == (if s[Pred(j, |s|)] == s[i] then s[j] else s[Pred(j, |s|)])
    ensures j > 0 ==> s2[..q1 + 1] + [s[i]] + s2[q1 + 1..] == s[i := s[j]][j := s[i]]
    ensures j == 0 ==> s2[..q1 + 1] + [s[i]] + s2[q1 + 1..] == s2 + [s[i]]
    ensures j == 0 ==> s[i := s[j]][j := s[i]] == [s[i]] + s2
  {
    s1 := s[..j] + s[j + 1..];
    i1 := if i < j then i else i - 1;
    s2 := s1[i1 := s[j]];
    q1 := if j > 0 then j - 1 else |s1| - 1;
    SwapTaken(s, i, j, s1, i1, s2);
    assert s[Pred(j, |s|)] == s[i] <==> i == Pred(j, |s|);
    SwapRebuild(s[i := s[j]], s2, j, q1, s[i]);
  }

  /** Taking `s[j]` off and writing it over `s[i]` leaves `s` with `s[j]` at `i`, minus position `j`. */
  lemma SwapTaken(s: seq<nat>, i: nat, j: nat, s1: seq<nat>, i1: nat, s2: seq<nat>)
    requires i < |s| && j < |s| && i != j
    requires s1 == s[..j] + s[j + 1..] && i1 == (if i < j then i else i - 1) && s2 == s1[i1 := s[j]]
    ensures i1 < |s1| && s1[i1] == s[i]
    ensures s2 == s[i := s[j]][..j] + s[i := s[j]][j + 1..]
  {
    var u := s[i := s[j]];
    assert forall m :: 0 <= m < |s1| ==> s1[m] == s[if m < j then m else m + 1];
    forall m | 0 <= m < |s2| ensures s2[m] == (u[..j] + u[j + 1..])[m] {
      if m < j {
        assert (u[..j] + u[j + 1..])[m] == u[m];
      } else {
        assert (u[..j] + u[j + 1..])[m] == u[m + 1];
      }
    }
  }

  /**
   * Putting `x` back into `s2`, which is `u` without position `j`, after
   * position `q1` writes `x` at position `j` of `u`; when `j` is 0 it lands at
   * the end, one rotation away.
   */
  lemma SwapRebuild(u: seq<nat>, s2: seq<nat>, j: nat, q1: nat, x: nat)
    requires j < |u| && |u| > 1 && s2 == u[..j] + u[j + 1..] && q1 == (if j > 0 then j - 1 else |s2| - 1)
    ensures q1 < |s2| && s2[q1] == u[Pred(j, |u|)]
    ensures j > 0 ==> s2[..q1 + 1] + [x] + s2[q1 + 1..] == u[j := x]
    ensures j == 0 ==> s2[..q1 + 1] + [x] + s2[q1 + 1..] == s2 + [x] && u[j := x] == [x] + s2
  {
    if j > 0 {
      assert s2[..q1 + 1] == u[..j] && s2[q1 + 1..] == u[j + 1..];
      assert s2[q1] == u[..j][j - 1];
    } else {
      assert s2 == u[1..];
      assert s2[q1 + 1..] == [] && s2[..q1 + 1] == s2;
    }
  }

  /** The intermediate sequences of the swap hold only nodes of `s`. */
  lemma SwapMembers(s: seq<nat>, i: nat, j: nat, s1: seq<nat>, i1: nat, s2: seq<nat>)
    requires i < |s| && j < |s| && s1 == s[..j] + s[j + 1..] && i1 < |s1| && s2 == s1[i1 := s[j]]
    ensures forall y :: y in s1 + [s[j]] ==> y in s
    ensures forall y :: y in s2 + [s[i]] ==> y in s
  {
    assert forall y :: y in s1 ==> y in s by {
      forall y | y in s1 ensures y in s {
        if y in s[..j] {
          var k :| 0 <= k < j && s[..j][k] == y;
          assert s[k] == y;
        } else {
          var k :| 0 <= k < |s| - j - 1 && s[j + 1..][k] == y;
          assert s[j + 1 + k] == y;
        }
      }
    }
    forall y | y in s2 ensures y in s {
      var k :| 0 <= k < |s2| && s2[k] == y;
      if k != i1 {
        assert s1[k] == y;
      }
    }
  }

  /**
   * What merge needs of two disjoint lists whose nodes lie below `n`: their
   * elements are apart from each other and from `n`, and a sentinel that
   * does not contribute itself is apart from all of them.
   */
  lemma ElementsApart(la: seq<nat>, lb: seq<nat>, n: nat)
    requires |la| > 0 && |lb| > 0 && Distinct(la) && Distinct(lb) && Disjoint(la, lb)
    requires (forall k :: 0 <= k < |la| ==> la[k] < n) && (forall k :: 0 <= k < |lb| ==> lb[k] < n)
    ensures Disjoint(Elements(la), Elements(lb)) && n !in Elements(la) && n !in Elements(lb)
    ensures |la| > 1 ==> la[0] !in Elements(la) + Elements(lb) + [n]
    ensures |lb| > 1 ==> lb[0] !in Elements(la) + Elements(lb) + [n]
    ensures forall x :: x in Elements(la) + Elements(lb) + [n] && x < n ==> x in la + lb
  {
    var ea, eb := Elements(la), Elements(lb);
    assert forall x :: x in ea ==> x in la;
    assert forall x :: x in eb ==> x in lb;
    if |la| > 1 {
      forall k | 0 <= k < |ea| ensures ea[k] != la[0] {
        assert ea[k] == la[k + 1];
      }
    }
    if |lb| > 1 {
      forall k | 0 <= k < |eb| ensures eb[k] != lb[0] {
        assert eb[k] == lb[k + 1];
      }
    }
  }

  /**
   * The bookkeeping of merge: `ra` and `rb` are what is left of the runs
   * `ea` and `eb`, and `out` is what has been moved behind `head`. They are
   * apart from each other, and the output followed by the merge of what is
   * left is the merge of the whole runs.
   */
  ghost predicate MergeProgress(key: seq<int>, head: nat, ea: seq<nat>, eb: seq<nat>,
                                ra: seq<nat>, rb: seq<nat>, out: seq<nat>) {
    && (forall x :: x in ra ==> x in ea)
    && (forall x :: x in rb ==> x in eb)
    && (forall x :: x in out ==> x in ea || x in eb)
    && Disjoint(ra, [head] + out) && Disjoint(rb, [head] + out) && Disjoint(ra, rb)
    && out + SortSpec.Merge(key, ra, rb) == SortSpec.Merge(key, ea, eb)
  }

  lemma MergeProgressStart(key: seq<int>, head: nat, ea: seq<nat>, eb: seq<nat>)
    requires Disjoint(ea, eb) && head !in ea && head !in eb
    ensures MergeProgress(key, head, ea, eb, ea, eb, [])
  {
    assert [head] + [] == [head];
  }

  /** Taking the front of `ra` when it does not compare Greater than the front of `rb`. */
  lemma MergeProgressLeft(key: seq<int>, head: nat, ea: seq<nat>, eb: seq<nat>,
                          ra: seq<nat>, rb: seq<nat>, out: seq<nat>)
    requires MergeProgress(key, head, ea, eb, ra, rb, out) && ra != [] && rb != [] && Distinct(ra)
    requires CmpFunc(SortSpec.KeyOf(key, ra[0]), SortSpec.KeyOf(key, rb[0])) != Greater
    ensures Disjoint(rb, ra + [head] + out)
    ensures forall z :: z in ra + [head] + out ==> z in ea + eb + [head]
    ensures [head] + out + [ra[0]] == [head] + (out + [ra[0]])
    ensures MergeProgress(key, head, ea, eb, ra[1..], rb, out + [ra[0]])
  {
    var x := ra[0];
    assert SortSpec.Merge(key, ra, rb) == [x] + SortSpec.Merge(key, ra[1..], rb);
    assert out + [x] + SortSpec.Merge(key, ra[1..], rb) == out + SortSpec.Merge(key, ra, rb);
    assert x in ra;
    forall k | 0 <= k < |rb| ensures rb[k] !in ra + [head] + out {
      assert rb[k] !in [head] + out;
      forall i | 0 <= i < |ra| ensures ra[i] != rb[k] {
        assert rb[k] in rb;
      }
    }
    assert forall y :: y in ra[1..] ==> y in ra;
    forall k | 0 <= k < |ra| - 1 ensures ra[1..][k] !in [head] + out + [x] {
      assert ra[k + 1] != ra[0];
    }
  }

  /** Taking the front of `rb` when the front of `ra` compares Greater. */
  lemma MergeProgressRight(key: seq<int>, head: nat, ea: seq<nat>, eb: seq<nat>,
                           ra: seq<nat>, rb: seq<nat>, out: seq<nat>)
    requires MergeProgress(key, head, ea, eb, ra, rb, out) && ra != [] && rb != [] && Distinct(rb)
    requires CmpFunc(SortSpec.KeyOf(key, ra[0]), SortSpec.KeyOf(key, rb[0])) == Greater
    ensures Disjoint(ra, rb + [head] + out)
    ensures forall z :: z in rb + [head] + out ==> z in ea + eb + [head]
    ensures [head] + out + [rb[0]] == [head] + (out + [rb[0]])
    ensures MergeProgress(key, head, ea, eb, ra, rb[1..], out + [rb[0]])
  {
    var y := rb[0];
    assert SortSpec.Merge(key, ra, rb) == [y] + SortSpec.Merge(key, ra, rb[1..]);
    assert out + [y] + SortSpec.Merge(key, ra, rb[1..]) == out + SortSpec.Merge(key, ra, rb);
    assert y in rb;
    forall k | 0 <= k < |ra| ensures ra[k] !in rb + [head] + out {
      assert ra[k] !in [head] + out && ra[k] !in rb;
    }
    assert forall z :: z in rb[1..] ==> z in rb;
    forall k | 0 <= k < |ra| ensures ra[k] !in rb[1..] {
      assert ra[k] !in rb;
    }
    forall k | 0 <= k < |rb| - 1 ensures rb[1..][k] !in [head] + out + [y] {
      assert rb[k + 1] != rb[0];
    }
  }

  /** Once one run is exhausted the other is the rest of the merge. */
  lemma MergeProgressRest(key: seq<int>, head: nat, ea: seq<nat>, eb: seq<nat>,
                          ra: seq<nat>, rb: seq<nat>, out: seq<nat>, rest: seq<nat>)
    requires MergeProgress(key, head, ea, eb, ra, rb, out)
    requires (ra == [] && rest == rb) || (rb == [] && rest == ra)
    ensures Disjoint(rest, [head] + out)
    ensures forall z :: z in rest + [head] + out ==> z in ea + eb + [head]
    ensures [head] + out + rest == [head] + SortSpec.Merge(key, ea, eb)
  {
    assert SortSpec.Merge(key, ra, rb) == rest;
  }

  class Arena {
    var next: seq<nat>
    var prev: seq<nat>
    var item: seq<int>
    ghost var stale: set<nat>

    ghost predicate Valid()
      reads this
    {
      && |item| == |next|
      && Circular(next, prev, stale)
      && (forall x :: x in stale ==> x < |next|)
    }

    /** A node that takes part in a list. */
    ghost predicate Live(x: nat)
      reads this
    {
      x < |next| && x !in stale
    }

    /** A node that may be linked into a list: stale, or a list of its own that is empty. */
    ghost predicate Free(x: nat)
      reads this
    {
      x < |next| && (x in stale || next[x] == x)
    }

    ghost predicate IsList(s: seq<nat>)
      reads this
    {
      IsCycle(next, prev, s) && forall x :: x in s ==> x !in stale
    }

    /** Every node of `next0` outside `s` still has the links it had in `next0`, `prev0`. */
    ghost predicate LinksKept(next0: seq<nat>, prev0: seq<nat>, s: seq<nat>)
      reads this
    {
      Kept(next0, prev0, next, prev, s)
    }

    /**
     * The store was at least `size` nodes long at a time when the stale
     * nodes were `stale0`. Since then it has not shrunk, and every node that
     * has become stale was allocated since.
     */
    ghost predicate StaleSince(stale0: set<nat>, size: nat)
      reads this
    {
      size <= |next| && forall x :: x in stale ==> x in stale0 || size <= x
    }

    /** A list whose nodes lie outside `s` survives a change that kept every link outside `s`. */
    lemma ListKept(next0: seq<nat>, prev0: seq<nat>, stale0: set<nat>, s: seq<nat>, t: seq<nat>)
      requires IsCycle(next0, prev0, t) && LinksKept(next0, prev0, s)
      requires (forall k :: 0 <= k < |t| ==> t[k] !in s) && (forall x :: x in t ==> x !in stale)
      ensures IsList(t)
    {
      forall k | 0 <= k < |t|
        ensures t[k] < |next| && t[k] < |prev| && next[t[k]] == next0[t[k]] && prev[t[k]] == prev0[t[k]]
      {
        assert t[k] !in s;
      }
      CycleFrame(next0, prev0, next, prev, t);
    }

    /** A node linked to itself outside `s` stays so through a change that kept every link outside `s`. */
    lemma SelfLoopKept(next0: seq<nat>, prev0: seq<nat>, s: seq<nat>, a: nat)
      requires LinksKept(next0, prev0, s) && a !in s && a !in stale && a < |next0| && a < |prev0|
      requires next0[a] == a && prev0[a] == a
      ensures IsList([a])
    {
      assert LinkedAt(next, prev, [a], 0);
    }

    /** A node that is free is on no list but possibly its own. */
    lemma FreeOutside(s: seq<nat>, x: nat)
      requires Valid() && IsList(s) && Free(x)
      ensures x in s ==> s == [x]
    {
      if x in s {
        SelfLoopCycle(next, prev, s, x);
      }
    }

    constructor ()
      ensures Valid() && next == [] && prev == [] && item == [] && stale == {}
    {
      next, prev, item := [], [], [];
      stale := {};
    }

    /** new: a fresh node carrying `num`, linked to itself. */
    method New(num: int) returns (node: nat)
      requires Valid()
      modifies this
      ensures Valid() && node == old(|next|)
      ensures next == old(next) + [node] && prev == old(prev) + [node] && item == old(item) + [num]
      ensures stale == old(stale) && IsList([node])
    {
      node := |next|;
      ghost var next0, prev0 := next, prev;
      next, prev, item := next + [node], prev + [node], item + [num];
      forall x | 0 <= x < |next| && x !in stale
        ensures LinkedNode(next, prev, stale, x)
      {
        if x < node {
          assert LinkedNode(next0, prev0, stale, x);
        }
      }
      assert LinkedAt(next, prev, [node], 0);
    }

    /** init_list_head: makes `list` an empty list. */
    method InitListHead(list: nat)
      requires Valid() && Free(list)
      modifies this
      ensures Valid() && IsList([list])
      ensures next == old(next)[list := list] && prev == old(prev)[list := list]
      ensures item == old(item) && stale == old(stale) - {list}
      ensures LinksKept(old(next), old(prev), [list])
    {
      CircularSelfLoop(next, prev, stale, list);
      next := next[list := list];
      prev := prev[list := list];
      stale := stale - {list};
      assert LinkedAt(next, prev, [list], 0);
    }

    /** list_empty: whether the list headed by `head` has no entries. */
    method ListEmpty(head: nat) returns (empty: bool)
      requires Valid() && Live(head)
      ensures empty <==> next[head] == head
      ensures empty <==> prev[head] == head
      ensures forall s :: IsList(s) && s[0] == head ==> (empty <==> |s| == 1)
    {
      assert LinkedNode(next, prev, stale, head);
      empty := next[head] == head;
      forall s | IsList(s) && s[0] == head
        ensures empty <==> |s| == 1
      {
        EmptyIffSingleton(next, prev, s);
      }
    }

    /** __list_add: links the free node `node` between the neighbours `prv` and `nxt`. */
    method AddBetween(node: nat, prv: nat, nxt: nat)
      requires Valid() && Free(node) && Live(prv) && nxt == next[prv] && node != prv && node != nxt
      modifies this
      ensures Valid()
      ensures next == old(next)[prv := node][node := nxt] && prev == old(prev)[nxt := node][node := prv]
      ensures item == old(item) && stale == old(stale) - {node}
    {
      CircularAdd(next, prev, stale, node, prv, nxt);
      UpdatesCommute(next, node, nxt, prv, node);
      // the four link writes of __list_add, grouped by field; none of them reads a link
      prev := prev[nxt := node][node := prv];
      next := next[node := nxt][prv := node];
      stale := stale - {node};
    }

    /** list_add: inserts `node` right after `head`, which sits at position `k` of `s`. */
    method ListAdd(node: nat, head: nat, ghost s: seq<nat>, ghost k: nat)
      requires Valid() && IsList(s) && k < |s| && s[k] == head && Free(node) && node != head
      modifies this
      ensures Valid() && IsList(s[..k + 1] + [node] + s[k + 1..])
      ensures next == old(next)[head := node][node := s[Succ(k, |s|)]]
      ensures prev == old(prev)[s[Succ(k, |s|)] := node][node := head]
      ensures item == old(item) && stale == old(stale) - {node}
      ensures LinksKept(old(next), old(prev), s + [node])
    {
      ghost var next0, prev0 := next, prev;
      assert LinkedAt(next, prev, s, k);
      FreeOutside(s, node);
      AddBetween(node, head, next[head]);
      ghost var r := s[..k + 1] + [node] + s[k + 1..];
      assert IsList(r) by {
        InsertAfter(next0, prev0, s, k, node);
        MembersSplice(s, k + 1, [node]);
      }
      ghost var touched := s + [node];
      assert head in touched && s[Succ(k, |s|)] in touched && node in touched;
      forall x | 0 <= x < |next0| && x < |prev0| && x !in touched
        ensures x < |next| && x < |prev| && next[x] == next0[x] && prev[x] == prev0[x]
      {
      }
    }

    /** list_add_tail: inserts `node` right before `head`, at the end of the list `s`. */
    method ListAddTail(node: nat, head: nat, ghost s: seq<nat>)
      requires Valid() && IsList(s) && s[0] == head && Free(node) && node != head
      modifies this
      ensures Valid() && IsList(s + [node])
      ensures next == old(next)[s[|s| - 1] := node][node := head]
      ensures prev == old(prev)[head := node][node := s[|s| - 1]]
      ensures item == old(item) && stale == old(stale) - {node}
      ensures LinksKept(old(next), old(prev), s + [node])
    {
      ghost var next0, prev0 := next, prev;
      var k := |s| - 1;
      PrevAt(next, prev, s, 0);
      assert LinkedAt(next, prev, s, k);
      FreeOutside(s, node);
      AddBetween(node, prev[head], head);
      assert IsCycle(next, prev, s + [node]) by {
        AppendAtEnd(next0, prev0, s, node);
      }
      ghost var touched := s + [node];
      assert head in touched && s[k] in touched && node in touched;
      forall x | 0 <= x < |next0| && x < |prev0| && x !in touched
        ensures x < |next| && x < |prev| && next[x] == next0[x] && prev[x] == prev0[x]
      {
      }
    }

    /** __list_del: joins `prv` and `nxt`, the neighbours of `entry`, leaving `entry` stale. */
    method DelBetween(prv: nat, nxt: nat, ghost entry: nat)
      requires Valid() && Live(entry) && next[entry] != entry && prv == prev[entry] && nxt == next[entry]
      modifies this
      ensures Valid()
      ensures next == old(next)[prv := nxt] && prev == old(prev)[nxt := prv]
      ensures item == old(item) && stale == old(stale) + {entry}
    {
      CircularDel(next, prev, stale, entry);
      prev := prev[nxt := prv];
      next := next[prv := nxt];
      stale := stale + {entry};
    }

    /**
     * __list_del_entry: takes `entry`, position `j` of the list `s`, off that
     * list, which leaves `entry` stale; an entry that is an empty list of its
     * own is left alone.
     */
    method DelEntry(entry: nat, ghost s: seq<nat>, ghost j: nat)
      requires Valid() && IsList(s) && j < |s| && s[j] == entry
      modifies this
      ensures Valid()
      ensures |s| == 1 ==> next == old(next) && prev == old(prev) && stale == old(stale)
      ensures |s| > 1 ==> next == old(next)[s[Pred(j, |s|)] := s[Succ(j, |s|)]]
      ensures |s| > 1 ==> prev == old(prev)[s[Succ(j, |s|)] := s[Pred(j, |s|)]]
      ensures |s| > 1 ==> stale == old(stale) + {entry} && IsList(s[..j] + s[j + 1..])
      ensures item == old(item)
      ensures LinksKept(old(next), old(prev), s)
    {
      ghost var next0, prev0 := next, prev;
      assert LinkedAt(next, prev, s, j);
      PrevAt(next, prev, s, j);
      var empty := ListEmpty(entry);
      if !empty {
        assert |s| > 1;
        DelBetween(prev[entry], next[entry], entry);
        ghost var r := s[..j] + s[j + 1..];
        assert IsCycle(next, prev, r) by {
          RemoveAt(next0, prev0, s, j);
        }
        assert forall y :: y in r ==> y !in stale by {
          MembersRemove(s, j);
        }
        forall x | 0 <= x < |next0| && x < |prev0| && x !in s
          ensures x < |next| && x < |prev| && next[x] == next0[x] && prev[x] == prev0[x]
        {
          assert x != s[Pred(j, |s|)] && x != s[Succ(j, |s|)];
        }
      } else {
        SelfLoopCycle(next, prev, s, entry);
      }
    }

    /** list_del_init: takes the node at position `j` of `s` off and makes it an empty list. */
    method ListDelInit(entry: nat, ghost s: seq<nat>, ghost j: nat)
      requires Valid() && IsList(s) && j < |s| && s[j] == entry
      modifies this
      ensures Valid() && IsList([entry])
      ensures |s| > 1 ==> IsList(s[..j] + s[j + 1..])
      ensures item == old(item) && stale == old(stale) && |next| == old(|next|)
      ensures LinksKept(old(next), old(prev), s)
    {
      ghost var next0, prev0 := next, prev;
      assert entry !in stale;
      assert LinkedAt(next, prev, s, j);
      DelEntry(entry, s, j);
      ghost var next1, prev1, stale1 := next, prev, stale;
      InitListHead(entry);
      if |s| > 1 {
        ghost var r := s[..j] + s[j + 1..];
        assert forall k :: 0 <= k < |r| ==> r[k] !in [entry] by {
          MembersRemove(s, j);
          assert forall k :: 0 <= k < |r| ==> r[k] in r;
        }
        ListKept(next1, prev1, stale1, [entry], r);
      }
      forall x | 0 <= x < |next0| && x < |prev0| && x !in s
        ensures x < |next| && x < |prev| && next[x] == next0[x] && prev[x] == prev0[x]
      {
        assert x != entry;
      }
    }

    /** list_replace: `newNode` takes the place of the node at position `i` of `s`, which goes stale. */
    method ListReplace(oldNode: nat, newNode: nat, ghost s: seq<nat>, ghost i: nat)
      requires Valid() && IsList(s) && i < |s| && s[i] == oldNode && Free(newNode) && newNode != oldNode
      modifies this
      ensures Valid() && IsList(s[i := newNode])
      ensures |s| > 1 ==> next == old(next)[newNode := s[Succ(i, |s|)]][s[Pred(i, |s|)] := newNode]
      ensures |s| > 1 ==> prev == old(prev)[s[Succ(i, |s|)] := newNode][newNode := s[Pred(i, |s|)]]
      ensures |s| == 1 ==> next == old(next)[newNode := newNode]
      ensures |s| == 1 ==> prev == old(prev)[oldNode := newNode][newNode := newNode]
      ensures item == old(item) && stale == old(stale) - {newNode} + {oldNode}
      ensures LinksKept(old(next), old(prev), s + [newNode])
    {
      ghost var next0, prev0, stale0 := next, prev, stale;
      assert LinkedAt(next, prev, s, i);
      PrevAt(next, prev, s, i);
      FreeOutside(s, newNode);
      var n1 := next[newNode := next[oldNode]];
      var p1 := prev[n1[newNode] := newNode];
      var p2 := p1[newNode := p1[oldNode]];
      var n2 := n1[p2[newNode] := newNode];
      ReplaceSteps(next0, prev0, stale0, s, i, newNode, n1, p1, p2, n2);
      next, prev, stale := n2, p2, stale - {newNode} + {oldNode};
      assert forall y :: y in s[i := newNode] ==> y !in stale by {
        MembersUpdate(s, i, newNode);
      }
      assert forall x :: x in s + [newNode] <==> x in s || x == newNode;
    }

    /** list_replace_init: as list_replace, then the replaced node becomes an empty list. */
    method ListReplaceInit(oldNode: nat, newNode: nat, ghost s: seq<nat>, ghost i: nat)
      requires Valid() && IsList(s) && i < |s| && s[i] == oldNode && Free(newNode) && newNode != oldNode
      modifies this
      ensures Valid() && IsList(s[i := newNode]) && IsList([oldNode])
      ensures item == old(item) && stale == old(stale) - {newNode}
      ensures LinksKept(old(next), old(prev), s + [newNode])
    {
      ghost var next0, prev0 := next, prev;
      ListReplace(oldNode, newNode, s, i);
      ghost var next1, prev1, stale1 := next, prev, stale;
      InitListHead(oldNode);
      MembersUpdate(s, i, newNode);
      assert IsCycle(next1, prev1, s[i := newNode]);
      ListKept(next1, prev1, stale1, [oldNode], s[i := newNode]);
    }

    /**
     * list_move: takes the node at position `j` of `s` off its list and
     * inserts it after `head`, position `k` of another list `t`.
     */
    method ListMove(entry: nat, head: nat, ghost s: seq<nat>, ghost j: nat, ghost t: seq<nat>, ghost k: nat)
      requires Valid() && IsList(s) && j < |s| && s[j] == entry
      requires IsList(t) && k < |t| && t[k] == head && Disjoint(s, t)
      modifies this
      ensures Valid() && IsList(t[..k + 1] + [entry] + t[k + 1..])
      ensures |s| > 1 ==> IsList(s[..j] + s[j + 1..])
      ensures item == old(item) && stale == old(stale) && |next| == old(|next|)
      ensures LinksKept(old(next), old(prev), s + t)
    {
      ghost var next0, prev0 := next, prev;
      assert entry in s && head in t;
      DisjointSymmetric(s, t);
      assert LinkedAt(next, prev, s, j);
      DelEntry(entry, s, j);
      ghost var next1, prev1, stale1 := next, prev, stale;
      ListKept(next0, prev0, stale1, s, t);
      ListAdd(entry, head, t, k);
      if |s| > 1 {
        ghost var r := s[..j] + s[j + 1..];
        assert forall i :: 0 <= i < |r| ==> r[i] !in t + [entry] by {
          MembersRemove(s, j);
          assert forall i :: 0 <= i < |r| ==> r[i] in r;
        }
        ListKept(next1, prev1, stale1, t + [entry], r);
      }
      forall x | 0 <= x < |next0| && x < |prev0| && x !in s + t
        ensures x < |next| && x < |prev| && next[x] == next0[x] && prev[x] == prev0[x]
      {
        assert x !in s && x !in t + [entry];
      }
    }

    /**
     * list_move_tail: takes the node at position `j` of `s` off its list and
     * inserts it before `head`, at the end of another list `t`.
     */
    method ListMoveTail(entry: nat, head: nat, ghost s: seq<nat>, ghost j: nat, ghost t: seq<nat>)
      requires Valid() && IsList(s) && j < |s| && s[j] == entry
      requires IsList(t) && t[0] == head && Disjoint(s, t)
      modifies this
      ensures Valid() && IsList(t + [entry])
      ensures |s| > 1 ==> IsList(s[..j] + s[j + 1..])
      ensures item == old(item) && stale == old(stale) && |next| == old(|next|)
      ensures LinksKept(old(next), old(prev), s + t)
    {
      ghost var next0, prev0 := next, prev;
      assert entry in s && head in t;
      DisjointSymmetric(s, t);
      assert LinkedAt(next, prev, s, j);
      DelEntry(entry, s, j);
      ghost var next1, prev1, stale1 := next, prev, stale;
      ListKept(next0, prev0, stale1, s, t);
      ListAddTail(entry, head, t);
      if |s| > 1 {
        ghost var r := s[..j] + s[j + 1..];
        assert forall i :: 0 <= i < |r| ==> r[i] !in t + [entry] by {
          MembersRemove(s, j);
          assert forall i :: 0 <= i < |r| ==> r[i] in r;
        }
        ListKept(next1, prev1, stale1, t + [entry], r);
      }
      forall x | 0 <= x < |next0| && x < |prev0| && x !in s + t
        ensures x < |next| && x < |prev| && next[x] == next0[x] && prev[x] == prev0[x]
      {
        assert x !in s && x !in t + [entry];
      }
    }

    /**
     * __list_splice: links the entries of the non-empty list `s`, headed by
     * `list`, between `prv`, position `k` of the list `t`, and its successor
     * `nxt`. The sentinel `list` is left stale.
     */
    method SpliceBetween(list: nat, prv: nat, nxt: nat, ghost s: seq<nat>, ghost t: seq<nat>, ghost k: nat)
      requires Valid() && IsList(s) && |s| > 1 && s[0] == list
      requires IsList(t) && k < |t| && t[k] == prv && t[Succ(k, |t|)] == nxt && Disjoint(s, t)
      modifies this
      ensures Valid() && IsList(t[..k + 1] + s[1..] + t[k + 1..])
      ensures next == old(next)[prv := s[1]][s[|s| - 1] := nxt]
      ensures prev == old(prev)[s[1] := prv][nxt := s[|s| - 1]]
      ensures item == old(item) && stale == old(stale) + {list}
      ensures LinksKept(old(next), old(prev), s + t)
    {
      assert LinkedAt(next, prev, s, 0);
      PrevAt(next, prev, s, 0);
      assert s[1] != list && list in s;
      var p1 := prev[next[list] := prv];
      var n1 := next[prv := next[list]];
      var n2 := n1[p1[list] := nxt];
      var p2 := p1[nxt := p1[list]];
      SpliceSteps(next, prev, stale, s, t, k, p1, n1, n2, p2);
      next, prev, stale := n2, p2, stale + {list};
    }

    /**
     * list_splice: joins the list `s`, headed by `list`, into the list `t`
     * right after its head. On an empty `s` nothing changes; otherwise `list`
     * is left stale.
     */
    method ListSplice(list: nat, head: nat, ghost s: seq<nat>, ghost t: seq<nat>)
      requires Valid() && IsList(s) && s[0] == list && IsList(t) && t[0] == head && Disjoint(s, t)
      modifies this
      ensures Valid() && item == old(item)
      ensures |s| == 1 ==> next == old(next) && prev == old(prev) && stale == old(stale)
      ensures |s| > 1 ==> IsList([head] + s[1..] + t[1..]) && stale == old(stale) + {list}
      ensures LinksKept(old(next), old(prev), s + t)
    {
      var empty := ListEmpty(list);
      if !empty {
        assert LinkedAt(next, prev, t, 0);
        // the head's successor is read before any link changes
        var nxt := next[head];
        SpliceBetween(list, head, nxt, s, t, 0);
        assert t[..1] == [head];
      }
    }

    /**
     * list_splice_tail: joins the list `s`, headed by `list`, into the list
     * `t` at its end. On an empty `s` nothing changes; otherwise `list` is
     * left stale.
     */
    method ListSpliceTail(list: nat, head: nat, ghost s: seq<nat>, ghost t: seq<nat>)
      requires Valid() && IsList(s) && s[0] == list && IsList(t) && t[0] == head && Disjoint(s, t)
      modifies this
      ensures Valid() && item == old(item)
      ensures |s| == 1 ==> next == old(next) && prev == old(prev) && stale == old(stale)
      ensures |s| > 1 ==> IsList(t + s[1..]) && stale == old(stale) + {list}
      ensures LinksKept(old(next), old(prev), s + t)
    {
      var empty := ListEmpty(list);
      if !empty {
        ghost var k := |t| - 1;
        PrevAt(next, prev, t, 0);
        // the head's predecessor is read before any link changes
        var prv := prev[head];
        assert Succ(k, |t|) == 0;
        SpliceBetween(list, prv, head, s, t, k);
        assert t[..k + 1] + s[1..] + t[k + 1..] == t + s[1..];
      }
    }

    /**
     * list_swap: exchanges the nodes at positions `i` and `j` of the list `s`:
     * `entry2` is taken off, takes the place of `entry1`, and `entry1` is
     * re-inserted after `entry2`'s old predecessor (or after `entry2` itself
     * when that predecessor was `entry1`).
     */
    method ListSwap(entry1: nat, entry2: nat, ghost s: seq<nat>, ghost i: nat, ghost j: nat)
      requires Valid() && IsList(s) && i < |s| && j < |s| && i != j && s[i] == entry1 && s[j] == entry2
      modifies this
      ensures Valid() && IsList(s[i := entry2][j := entry1])
      ensures item == old(item) && stale == old(stale) && |next| == old(|next|)
      ensures LinksKept(old(next), old(prev), s)
    {
      ghost var next0, prev0 := next, prev;
      ghost var s1, i1, s2, q1 := SwapShape(s, i, j);
      SwapMembers(s, i, j, s1, i1, s2);
      PrevAt(next, prev, s, j);
      var pos := prev[entry2];
      ListDelInit(entry2, s, j);
      assert LinkedAt(next, prev, [entry2], 0);
      ListReplace(entry1, entry2, s1, i1);
      if pos == entry1 {
        pos := entry2;
      }
      ListAdd(entry1, pos, s2, q1);
      ghost var r := s2[..q1 + 1] + [entry1] + s2[q1 + 1..];
      if j == 0 {
        CycleRotate(next, prev, s2, [entry1]);
      }
      forall x | 0 <= x < |next0| && x < |prev0| && x !in s
        ensures x < |next| && x < |prev| && next[x] == next0[x] && prev[x] == prev0[x]
      {
        assert x !in s1 + [entry2] && x !in s2 + [entry1];
      }
    }

    /**
     * The opening of merge: a new sentinel `head` carrying 0, and the first
     * entries `ca` and `cb` of the two lists read off their sentinels before
     * both sentinels are unlinked.
     */
    method MergeStart(a: nat, b: nat, ghost la: seq<nat>, ghost lb: seq<nat>) returns (head: nat, ca: nat, cb: nat)
      requires Valid() && IsList(la) && la[0] == a && IsList(lb) && lb[0] == b && Disjoint(la, lb)
      modifies this
      ensures Valid() && head == old(|next|) && |next| == head + 1
      ensures item == old(item) + [0] && stale == old(stale) && IsList([head])
      ensures IsList(Elements(la)) && ca == Elements(la)[0]
      ensures IsList(Elements(lb)) && cb == Elements(lb)[0]
      ensures |la| > 1 ==> IsList([a])
      ensures |lb| > 1 ==> IsList([b])
      ensures LinksKept(old(next), old(prev), la + lb)
    {
      ghost var next0, prev0 := next, prev;
      head := New(0);
      ghost var n1, p1 := next, prev;
      assert Kept(next0, prev0, n1, p1, []);
      assert IsList(la) && IsList(lb) by {
        ListKept(next0, prev0, stale, [], la);
        ListKept(next0, prev0, stale, [], lb);
      }
      ca := next[a];
      cb := next[b];
      assert ca == Elements(la)[0] by {
        assert LinkedAt(next, prev, la, 0);
      }
      assert cb == Elements(lb)[0] by {
        assert LinkedAt(next, prev, lb, 0);
      }
      MergeUnlink(a, b, la, lb, head);
      forall x | 0 <= x < |next0| && x < |prev0| && x !in la + lb
        ensures x < |next| && x < |prev| && next[x] == next0[x] && prev[x] == prev0[x]
      {
      }
      assert Kept(next0, prev0, next, prev, la + lb);
    }

    /**
     * One list_del_init of the opening of merge: the sentinel `a` becomes an
     * empty list and what remains is a cycle of the entries alone (the
     * sentinel itself when the list was empty). The lists `u` and `v`, apart
     * from `la`, are untouched.
     */
    method DelInitRun(a: nat, ghost la: seq<nat>, ghost u: seq<nat>, ghost v: seq<nat>)
      requires Valid() && IsList(la) && la[0] == a && IsList(u) && IsList(v) && Disjoint(la, u) && Disjoint(la, v)
      modifies this
      ensures Valid() && item == old(item) && stale == old(stale) && |next| == old(|next|)
      ensures IsList(Elements(la)) && IsList(u) && IsList(v)
      ensures |la| > 1 ==> IsList([a])
      ensures LinksKept(old(next), old(prev), la)
    {
      ghost var n1, p1 := next, prev;
      ListDelInit(a, la, 0);
      assert IsList(u) && IsList(v) by {
        ListKept(n1, p1, stale, la, u);
        ListKept(n1, p1, stale, la, v);
      }
      assert IsList(Elements(la)) by {
        if |la| > 1 {
          assert la[..0] + la[1..] == Elements(la);
        } else {
          assert Elements(la) == [a];
        }
      }
    }

    /**
     * The two list_del_init calls that open merge: both sentinels become
     * empty lists, and what remains of each list is a cycle of its entries
     * alone (the sentinel itself when the list was empty). The list `[h]`,
     * apart from both, is untouched.
     */
    method MergeUnlink(a: nat, b: nat, ghost la: seq<nat>, ghost lb: seq<nat>, ghost h: nat)
      requires Valid() && IsList(la) && la[0] == a && IsList(lb) && lb[0] == b && Disjoint(la, lb)
      requires IsList([h]) && h !in la && h !in lb
      modifies this
      ensures Valid() && item == old(item) && stale == old(stale) && |next| == old(|next|)
      ensures IsList(Elements(la)) && IsList(Elements(lb)) && IsList([h])
      ensures |la| > 1 ==> IsList([a])
      ensures |lb| > 1 ==> IsList([b])
      ensures LinksKept(old(next), old(prev), la + lb)
    {
      ghost var n1, p1 := next, prev;
      ghost var ea := Elements(la);
      assert Disjoint(lb, ea) && Disjoint(la, [h]) && Disjoint(lb, [h]) by {
        assert forall x :: x in ea ==> x in la;
      }
      DelInitRun(a, la, lb, [h]);
      ghost var n2, p2 := next, prev;
      assert Kept(n1, p1, n2, p2, la);
      assert |la| > 1 ==> LinkedAt(n2, p2, [a], 0) && a !in lb;
      DelInitRun(b, lb, ea, [h]);
      assert Kept(n2, p2, next, prev, lb);
      assert |la| > 1 ==> IsList([a]) by {
        if |la| > 1 {
          SelfLoopKept(n2, p2, lb, a);
        }
      }
      KeptUnion(n1, p1, n2, p2, next, prev, la, lb);
    }

    /**
     * One step of merge: the front entry `x` of the run `r` is moved to the
     * end of the output list headed by `head`; the returned cursor is the
     * next entry of the run, or None when `x` was its last. The other run
     * `other` is left as it was.
     */
    method MergeTake(x: nat, head: nat, ghost r: seq<nat>, ghost out: seq<nat>, ghost other: seq<nat>)
      returns (c: Option<nat>)
      requires Valid() && IsList(r) && r[0] == x && IsList([head] + out) && Disjoint(r, [head] + out)
      requires IsList(other) && Disjoint(other, r + [head] + out)
      modifies this
      ensures Valid() && item == old(item) && stale == old(stale) && |next| == old(|next|)
      ensures IsList([head] + out + [x]) && IsList(other)
      ensures c.None? <==> |r| == 1
      ensures c.Some? ==> IsList(r[1..]) && c.value == r[1]
      ensures LinksKept(old(next), old(prev), r + [head] + out)
    {
      var xNext := next[x];
      assert LinkedAt(next, prev, r, 0);
      ghost var n0, p0 := next, prev;
      ListMoveTail(x, head, r, 0, [head] + out);
      ListKept(n0, p0, stale, r + ([head] + out), other);
      if x == xNext {
        c := None;
      } else {
        c := Some(xNext);
        assert r[..0] + r[1..] == r[1..];
      }
      assert r + [head] + out == r + ([head] + out);
    }

    /**
     * The closing of merge once one run is exhausted: a temporary node
     * carrying -1 is linked in front of `x`, the first entry of the
     * remaining run `rest`, which makes it a sentinel; that list is spliced
     * onto the end of the output list, leaving the temporary node stale.
     */
    method MergeRest(x: nat, head: nat, ghost rest: seq<nat>, ghost out: seq<nat>)
      requires Valid() && IsList(rest) && rest[0] == x && IsList([head] + out) && Disjoint(rest, [head] + out)
      modifies this
      ensures Valid() && |next| == old(|next|) + 1 && item == old(item) + [-1]
      ensures stale == old(stale) + {old(|next|)}
      ensures IsList([head] + out + rest)
      ensures LinksKept(old(next), old(prev), rest + [head] + out)
    {
      ghost var n0, p0 := next, prev;
      var tmp := New(-1);
      ListKept(n0, p0, stale, [], rest);
      ListKept(n0, p0, stale, [], [head] + out);
      ghost var n1, p1 := next, prev;
      ListAddTail(tmp, x, rest);
      ListKept(n1, p1, stale, rest + [tmp], [head] + out);
      CycleRotate(next, prev, rest, [tmp]);
      assert Disjoint([tmp] + rest, [head] + out);
      ghost var n2, p2 := next, prev;
      ListSpliceTail(tmp, head, [tmp] + rest, [head] + out);
      assert ([tmp] + rest)[1..] == rest;
      forall z | 0 <= z < |n0| && z < |p0| && z !in rest + [head] + out
        ensures z < |next| && z < |prev| && next[z] == n0[z] && prev[z] == p0[z]
      {
        assert z !in rest + [tmp] && z !in [tmp] + rest + ([head] + out);
      }
    }

    /**
     * The state of merge between steps: the output list headed by `head`
     * holds `out`, each cursor points at the front of what is left of its
     * run (None once the run is exhausted, which happens to one run at most),
     * and nothing outside the runs and `head` has been relinked since `nD`, `pD`.
     */
    ghost predicate MergeState(key: seq<int>, head: nat, ea: seq<nat>, eb: seq<nat>,
                               ca: Option<nat>, cb: Option<nat>, ra: seq<nat>, rb: seq<nat>, out: seq<nat>,
                               nD: seq<nat>, pD: seq<nat>, stale0: set<nat>)
      reads this
    {
      && Valid() && |next| == head + 1 && item == key + [0] && stale == stale0
      && IsList([head] + out)
      && (ca.Some? ==> ra != [] && IsList(ra) && ca.value == ra[0]) && (ca.None? ==> ra == [])
      && (cb.Some? ==> rb != [] && IsList(rb) && cb.value == rb[0]) && (cb.None? ==> rb == [])
      && (ca.Some? || cb.Some?)
      && MergeProgress(key, head, ea, eb, ra, rb, out)
      && LinksKept(nD, pD, ea + eb + [head])
    }

    /** One comparison of merge: the front entry that does not compare Greater moves to the output. */
    method MergeStep(head: nat, ca: Option<nat>, cb: Option<nat>, ghost key: seq<int>, ghost ea: seq<nat>, ghost eb: seq<nat>,
                     ghost ra: seq<nat>, ghost rb: seq<nat>, ghost out: seq<nat>,
                     ghost nD: seq<nat>, ghost pD: seq<nat>, ghost stale0: set<nat>)
      returns (ca': Option<nat>, cb': Option<nat>, ghost ra': seq<nat>, ghost rb': seq<nat>, ghost out': seq<nat>)
      requires MergeState(key, head, ea, eb, ca, cb, ra, rb, out, nD, pD, stale0) && ca.Some? && cb.Some?
      modifies this
      ensures MergeState(key, head, ea, eb, ca', cb', ra', rb', out', nD, pD, stale0)
      ensures |ra'| + |rb'| < |ra| + |rb|
    {
      var x, y := ca.value, cb.value;
      assert SortSpec.KeyOf(key, x) == item[x] && SortSpec.KeyOf(key, y) == item[y] by {
        assert LinkedAt(next, prev, ra, 0) && LinkedAt(next, prev, rb, 0);
      }
      if CmpFunc(item[x], item[y]) != Greater {
        MergeProgressLeft(key, head, ea, eb, ra, rb, out);
        ghost var moved := ra + [head] + out;
        ca' := MergeTake(x, head, ra, out, rb);
        cb', ra', rb', out' := cb, ra[1..], rb, out + [x];
        forall z | 0 <= z < |nD| && z < |pD| && z !in ea + eb + [head]
          ensures z < |next| && z < |prev| && next[z] == nD[z] && prev[z] == pD[z]
        {
          assert z !in moved;
        }
      } else {
        MergeProgressRight(key, head, ea, eb, ra, rb, out);
        ghost var moved := rb + [head] + out;
        cb' := MergeTake(y, head, rb, out, ra);
        ca', ra', rb', out' := ca, ra, rb[1..], out + [y];
        forall z | 0 <= z < |nD| && z < |pD| && z !in ea + eb + [head]
          ensures z < |next| && z < |prev| && next[z] == nD[z] && prev[z] == pD[z]
        {
          assert z !in moved;
        }
      }
    }

    /** The end of merge: one run is exhausted and the rest of the other is spliced on. */
    method MergeFinish(head: nat, ca: Option<nat>, cb: Option<nat>, ghost key: seq<int>, ghost ea: seq<nat>, ghost eb: seq<nat>,
                       ghost ra: seq<nat>, ghost rb: seq<nat>, ghost out: seq<nat>,
                       ghost nD: seq<nat>, ghost pD: seq<nat>, ghost stale0: set<nat>)
      requires MergeState(key, head, ea, eb, ca, cb, ra, rb, out, nD, pD, stale0) && !(ca.Some? && cb.Some?)
      modifies this
      ensures Valid() && |next| == head + 2 && item == key + [0, -1] && stale == stale0 + {head + 1}
      ensures IsList([head] + SortSpec.Merge(key, ea, eb))
      ensures LinksKept(nD, pD, ea + eb + [head])
    {
      ghost var rest := if ca.Some? then ra else rb;
      var x := if ca.Some? then ca.value else cb.value;
      MergeProgressRest(key, head, ea, eb, ra, rb, out, rest);
      ghost var n0, p0 := next, prev;
      assert Kept(nD, pD, n0, p0, ea + eb + [head]);
      MergeRest(x, head, rest, out);
      assert Kept(n0, p0, next, prev, rest + [head] + out);
      forall z | 0 <= z < |nD| && z < |pD| && z !in ea + eb + [head]
        ensures z < |next| && z < |prev| && next[z] == nD[z] && prev[z] == pD[z]
      {
        assert z !in rest + [head] + out;
      }
    }

    /**
     * The loop of merge: while both cursors point into their runs, the front
     * entry that does not compare Greater (the `a` side on ties) is moved to
     * the end of the list headed by `head`; once one run is exhausted, the
     * other is spliced on whole.
     */
    method MergeLoop(head: nat, aFirst: nat, bFirst: nat, ghost key: seq<int>, ghost ea: seq<nat>, ghost eb: seq<nat>)
      requires Valid() && |next| == head + 1 && |key| == head && item == key + [0]
      requires IsList([head]) && IsList(ea) && ea[0] == aFirst && IsList(eb) && eb[0] == bFirst
      requires MergeProgress(key, head, ea, eb, ea, eb, [])
      modifies this
      ensures Valid() && |next| == head + 2 && item == key + [0, -1] && stale == old(stale) + {head + 1}
      ensures IsList([head] + SortSpec.Merge(key, ea, eb))
      ensures LinksKept(old(next), old(prev), ea + eb + [head])
    {
      ghost var nD, pD, stale0 := next, prev, stale;
      var ca: Option<nat> := Some(aFirst);
      var cb: Option<nat> := Some(bFirst);
      ghost var ra, rb, out := ea, eb, [];
      assert [head] + out == [head];
      assert LinksKept(nD, pD, ea + eb + [head]);
      while true
        invariant MergeState(key, head, ea, eb, ca, cb, ra, rb, out, nD, pD, stale0)
        decreases |ra| + |rb|
      {
        if ca.Some? && cb.Some? {
          ca, cb, ra, rb, out := MergeStep(head, ca, cb, key, ea, eb, ra, rb, out, nD, pD, stale0);
        } else {
          MergeFinish(head, ca, cb, key, ea, eb, ra, rb, out, nD, pD, stale0);
          break;
        }
      }
    }

    /**
     * merge: moves the entries of the lists headed by `a` and `b` onto a new
     * list, in the order of the two-way merge that takes from `a` on ties.
     * A list that is empty contributes its own sentinel as its one entry;
     * a sentinel that is not used so is left as an empty list.
     */
    method Merge(a: nat, b: nat, ghost la: seq<nat>, ghost lb: seq<nat>) returns (head: nat)
      requires Valid() && IsList(la) && la[0] == a && IsList(lb) && lb[0] == b && Disjoint(la, lb)
      modifies this
      ensures Valid() && head == old(|next|) && |next| == head + 2
      ensures item == old(item) + [0, -1] && stale == old(stale) + {head + 1}
      ensures IsList([head] + SortSpec.Merge(old(item), Elements(la), Elements(lb)))
      ensures |la| > 1 ==> IsList([a])
      ensures |lb| > 1 ==> IsList([b])
      ensures LinksKept(old(next), old(prev), la + lb)
    {
      ghost var key, next0, prev0 := item, next, prev;
      ghost var ea, eb := Elements(la), Elements(lb);
      ElementsApart(la, lb, |next|);
      var aFirst, bFirst;
      head, aFirst, bFirst := MergeStart(a, b, la, lb);
      ghost var nD, pD := next, prev;
      assert Kept(next0, prev0, nD, pD, la + lb);
      assert |la| > 1 ==> LinkedAt(nD, pD, [a], 0);
      assert |lb| > 1 ==> LinkedAt(nD, pD, [b], 0);
      MergeProgressStart(key, head, ea, eb);
      MergeLoop(head, aFirst, bFirst, key, ea, eb);
      assert Kept(nD, pD, next, prev, ea + eb + [head]);
      KeptTrans(next0, prev0, nD, pD, next, prev, la + lb, ea + eb + [head]);
      assert |la| > 1 ==> IsList([a]) by {
        if |la| > 1 {
          SelfLoopKept(nD, pD, ea + eb + [head], a);
        }
      }
      assert |lb| > 1 ==> IsList([b]) by {
        if |lb| > 1 {
          SelfLoopKept(nD, pD, ea + eb + [head], b);
        }
      }
    }

    /**
     * The merge step of list_sort: pops the top run `a` and the run `b`
     * below it, and pushes merge(b, a).
     */
    method MergeTop(pending: seq<nat>, ghost key0: seq<int>, ghost n0: seq<nat>, ghost p0: seq<nat>,
                    ghost l: seq<nat>, ghost done: nat, ghost segs: seq<seq<nat>>) returns (pending': seq<nat>)
      requires Valid() && SortInv(next, prev, stale, item, key0, n0, p0, l, done, pending, segs) && |pending| >= 2
      modifies this
      ensures Valid() && pending' == pending[..|pending| - 2] + [old(|next|)]
      ensures StaleSince(old(stale), old(|next|))
      ensures SortInv(next, prev, stale, item, key0, n0, p0, l, done, pending',
                      segs[..|pending| - 2] + [segs[|pending| - 2] + segs[|pending| - 1]])
    {
      var m := |pending|;
      var a := pending[m - 1];
      var b := pending[m - 2];
      pending' := pending[..m - 2];
      ghost var lb, la := PendingList(key0, b, segs[m - 2]), PendingList(key0, a, segs[m - 1]);
      ghost var n1, p1, st1, it1 := next, prev, stale, item;
      SortInvApart(next, prev, stale, item, key0, n0, p0, l, done, pending, segs, m - 2, m - 1);
      var h := Merge(b, a, lb, la);
      pending' := pending' + [h];
      MergeTopInv(n1, p1, st1, it1, next, prev, stale, item, key0, n0, p0, l, done, pending, segs, h);
    }

    /**
     * The first half of a step of list_sort's input loop: strips the
     * trailing one bits of `count` and merges the top two runs when any bit
     * is left. Fewer than two entries taken leave nothing to merge.
     */
    method MergeIfDue(count: nat, pending: seq<nat>, ghost key0: seq<int>, ghost n0: seq<nat>, ghost p0: seq<nat>,
                      ghost l: seq<nat>, ghost done: nat, ghost segs: seq<seq<nat>>)
      returns (pending': seq<nat>, ghost segs': seq<seq<nat>>)
      requires Valid() && SortInv(next, prev, stale, item, key0, n0, p0, l, done, pending, segs)
      requires (count == 0 && pending == []) || (count == 1 && |pending| == 1) || (count >= 2 && |pending| >= 2)
      modifies this
      ensures Valid() && SortInv(next, prev, stale, item, key0, n0, p0, l, done, pending', segs')
      ensures StripOnes(count) == 0 ==> pending' == pending && unchanged(this)
      ensures StripOnes(count) != 0 ==> count >= 2 && |pending'| == |pending| - 1
      ensures StaleSince(old(stale), old(|next|))
    {
      var bits := StripTrailingOnes(count);
      pending', segs' := pending, segs;
      if bits != 0 {
        assert count >= 2 by {
          assert StripOnes(1) == StripOnes(0) == 0;
        }
        ghost var m := |pending|;
        pending' := MergeTop(pending, key0, n0, p0, l, done, segs);
        segs' := segs[..m - 2] + [segs[m - 2] + segs[m - 1]];
      }
    }

    /**
     * One entry of the input loop of list_sort: takes `list` off the input
     * and pushes it as a run of its own, headed by a new sentinel `tmp`.
     * `listNext` is the entry after `list`, or the input sentinel.
     */
    method SortPush(list: nat, ghost key0: seq<int>, ghost n0: seq<nat>, ghost p0: seq<nat>,
                    ghost l: seq<nat>, ghost done: nat, ghost pending: seq<nat>, ghost segs: seq<seq<nat>>)
      returns (listNext: nat, tmp: nat)
      requires Valid() && SortInv(next, prev, stale, item, key0, n0, p0, l, done, pending, segs)
      requires done < |Elements(l)| && list == Elements(l)[done] && (|l| > 1 || done == 0)
      modifies this
      ensures Valid() && tmp == old(|next|) && StaleSince(old(stale), old(|next|))
      ensures SortInv(next, prev, stale, item, key0, n0, p0, l, done + 1, pending + [tmp], segs + [[list]])
      ensures listNext == l[0] <==> done + 1 == |Elements(l)|
      ensures done + 1 < |Elements(l)| ==> listNext == Elements(l)[done + 1]
    {
      ghost var n1, p1, st1, it1 := next, prev, stale, item;
      ghost var rem := Remaining(l, done);
      ghost var j := if |l| > 1 then 1 else 0;
      NextInRemaining(next, prev, stale, l, done);
      listNext := next[list];
      ListDelInit(list, rem, j);
      ghost var n2, p2 := next, prev;
      assert |l| > 1 ==> rem[..j] + rem[j + 1..] == Remaining(l, done + 1);
      tmp := NewRun(list);
      PushInv(n1, p1, st1, it1, n2, p2, next, prev, stale, item, key0, n0, p0, l, done, pending, segs, list, tmp);
    }

    /** A new sentinel `tmp` with the empty list `list` added behind it: a run of one entry. */
    method NewRun(list: nat) returns (tmp: nat)
      requires Valid() && IsList([list])
      modifies this
      ensures Valid() && tmp == old(|next|) && |next| == tmp + 1 && IsList([tmp] + [list])
      ensures item == old(item) + [-1] && stale == old(stale) - {list}
      ensures LinksKept(old(next), old(prev), [list])
    {
      ghost var n0, p0 := next, prev;
      assert LinkedAt(next, prev, [list], 0);
      tmp := New(-1);
      ghost var n1, p1 := next, prev;
      assert Free(list) && list != tmp;
      ListAddTail(list, tmp, [tmp]);
      assert Kept(n0, p0, n1, p1, []);
      KeptTrans(n0, p0, n1, p1, next, prev, [list], [tmp] + [list]);
    }

    /** The last loop of list_sort: merges the top two runs until one is left. */
    method MergeAll(pending: seq<nat>, ghost key0: seq<int>, ghost n0: seq<nat>, ghost p0: seq<nat>,
                    ghost l: seq<nat>, ghost segs: seq<seq<nat>>)
      returns (pending': seq<nat>, ghost segs': seq<seq<nat>>)
      requires Valid() && |l| > 0 && SortInv(next, prev, stale, item, key0, n0, p0, l, |Elements(l)|, pending, segs)
      requires |pending| >= 1
      modifies this
      ensures Valid() && SortInv(next, prev, stale, item, key0, n0, p0, l, |Elements(l)|, pending', segs')
      ensures |pending'| == 1 && StaleSince(old(stale), old(|next|))
    {
      pending', segs' := pending, segs;
      while |pending'| > 1
        invariant Valid() && SortInv(next, prev, stale, item, key0, n0, p0, l, |Elements(l)|, pending', segs')
        invariant |pending'| >= 1 && StaleSince(old(stale), old(|next|))
        decreases |pending'|
      {
        ghost var m := |pending'|;
        pending' := MergeTop(pending', key0, n0, p0, l, |Elements(l)|, segs');
        segs' := segs'[..m - 2] + [segs'[m - 2] + segs'[m - 1]];
      }
    }

    /**
     * list_sort: sorts the list `l`, headed by `head`, after cmp_func. Each
     * entry is moved to a run of its own, runs are merged as the entries
     * come, then all that are left; the result is the last run's sentinel.
     */
    method ListSort(head: nat, ghost l: seq<nat>) returns (sorted: nat)
      requires Valid() && IsList(l) && l[0] == head
      modifies this
      ensures Valid() && sorted >= old(|next|)
      ensures |item| >= old(|item|) && item[..old(|item|)] == old(item)
      ensures IsList([sorted] + SortSpec.Sort(old(item), Elements(l)))
      ensures |l| > 1 ==> IsList([head])
      ensures LinksKept(old(next), old(prev), l) && StaleSince(old(stale), old(|next|))
    {
      ghost var key0, n0, p0 := item, next, prev;
      SortStart(next, prev, stale, item, l);
      FirstEntry(next, prev, stale, l);
      var pending;
      ghost var segs;
      pending, segs := SortRuns(head, next[head], key0, n0, p0, l);
      pending, segs := MergeAll(pending, key0, n0, p0, l, segs);
      sorted := pending[|pending| - 1];
      SortDone(next, prev, stale, item, key0, n0, p0, l, pending, segs);
    }

    /**
     * The state at the head of list_sort's input loop: `list` is the entry
     * to take next, the `count`-th, and at least two runs are pending once
     * two entries are taken.
     */
    ghost predicate RunsLoop(head: nat, key0: seq<int>, n0: seq<nat>, p0: seq<nat>, l: seq<nat>,
                             count: nat, list: nat, pending: seq<nat>, segs: seq<seq<nat>>)
      reads this
    {
      && Valid() && |l| > 0 && l[0] == head
      && SortInv(next, prev, stale, item, key0, n0, p0, l, count, pending, segs)
      && count < |Elements(l)| && list == Elements(l)[count] && (|l| > 1 || count == 0)
      && ((count == 0 && pending == []) || (count == 1 && |pending| == 1) || (count >= 2 && |pending| >= 2))
    }

    /** The state after list_sort's input loop: every entry is taken. */
    ghost predicate RunsDone(key0: seq<int>, n0: seq<nat>, p0: seq<nat>, l: seq<nat>, pending: seq<nat>, segs: seq<seq<nat>>)
      reads this
    {
      Valid() && |l| > 0 && |pending| >= 1 && SortInv(next, prev, stale, item, key0, n0, p0, l, |Elements(l)|, pending, segs)
    }

    /** The state after a pass of list_sort's input loop: the loop goes on from `list`, or the input is done. */
    ghost predicate RunsNext(head: nat, key0: seq<int>, n0: seq<nat>, p0: seq<nat>, l: seq<nat>,
                             count: nat, list: nat, pending: seq<nat>, segs: seq<seq<nat>>)
      reads this
    {
      if list == head then RunsDone(key0, n0, p0, l, pending, segs)
      else RunsLoop(head, key0, n0, p0, l, count, list, pending, segs)
    }

    /**
     * One pass of list_sort's input loop: merges when due, then takes
     * `list`. `listNext` is the next entry, or `head` when the input is done.
     */
    method SortStep(head: nat, count: nat, list: nat, pending: seq<nat>, ghost key0: seq<int>,
                    ghost n0: seq<nat>, ghost p0: seq<nat>, ghost l: seq<nat>, ghost segs: seq<seq<nat>>)
      returns (listNext: nat, pending': seq<nat>, ghost segs': seq<seq<nat>>)
      requires RunsLoop(head, key0, n0, p0, l, count, list, pending, segs)
      modifies this
      ensures RunsNext(head, key0, n0, p0, l, count + 1, listNext, pending', segs')
      ensures StaleSince(old(stale), old(|next|))
    {
      pending', segs' := MergeIfDue(count, pending, key0, n0, p0, l, count, segs);
      var tmp;
      listNext, tmp := SortPush(list, key0, n0, p0, l, count, pending', segs');
      pending', segs' := pending' + [tmp], segs' + [[list]];
    }

    /**
     * The input loop of list_sort, from the first entry `list` of `l`: takes
     * every entry off the list, merging runs as it goes.
     */
    method SortRuns(head: nat, list: nat, ghost key0: seq<int>, ghost n0: seq<nat>, ghost p0: seq<nat>, ghost l: seq<nat>)
      returns (pending: seq<nat>, ghost segs: seq<seq<nat>>)
      requires RunsLoop(head, key0, n0, p0, l, 0, list, [], [])
      modifies this
      ensures RunsDone(key0, n0, p0, l, pending, segs)
      ensures StaleSince(old(stale), old(|next|))
    {
      var count: nat := 0;
      var entry := list;
      pending := [];
      segs := [];
      while true
        invariant RunsLoop(head, key0, n0, p0, l, count, entry, pending, segs)
        invariant StaleSince(old(stale), old(|next|))
        decreases |Elements(l)| - count
      {
        var listNext;
        listNext, pending, segs := SortStep(head, count, entry, pending, key0, n0, p0, l, segs);
        if listNext == head {
          break;
        }
        entry := listNext;
        count := count + 1;
      }
    }
  }
}
