/**
 * Link-level facts about the arena: `next[x]` and `prev[x]` are the neighbours of
 * node `x`. `Circular` is the invariant every operation keeps for every node
 * still in use; `IsCycle` describes one circular list as the sequence of its
 * nodes in forward order. The lemmas state what each link rewrite of the kit
 * does to the invariant and to the lists it touches.
 */
module Cycles {

  /** The index after `k` in a cycle of length `n`. */
  function Succ(k: nat, n: nat): nat {
    if k + 1 < n then k + 1 else 0
  }

  /** The index before `k` in a cycle of length `n`. */
  function Pred(k: nat, n: nat): nat {
    if k > 0 then k - 1 else if n > 0 then n - 1 else 0
  }

  ghost predicate Distinct(s: seq<nat>) {
    forall i, j :: 0 <= i < j < |s| ==> s[i] != s[j]
  }

  ghost predicate Disjoint(s: seq<nat>, t: seq<nat>) {
    forall k :: 0 <= k < |s| ==> s[k] !in t
  }

  /** Position `k` of `s` is linked forward to the next position, and back. */
  ghost predicate LinkedAt(next: seq<nat>, prev: seq<nat>, s: seq<nat>, k: nat)
    requires k < |s|
  {
    && s[k] < |next| && s[k] < |prev| && s[Succ(k, |s|)] < |prev|
    && next[s[k]] == s[Succ(k, |s|)] && prev[s[Succ(k, |s|)]] == s[k]
  }

  /** `s` is one circular list, read forward from `s[0]`; each node's `prev` points back. */
  ghost predicate IsCycle(next: seq<nat>, prev: seq<nat>, s: seq<nat>) {
    && |s| > 0
    && Distinct(s)
    && (forall k :: 0 <= k < |s| ==> s[k] < |next| && s[k] < |prev|)
    && (forall k {:trigger LinkedAt(next, prev, s, k)} :: 0 <= k < |s| ==> LinkedAt(next, prev, s, k))
  }

  /** Node `x` and its neighbours agree: `x.next.prev == x` and `x.prev.next == x`. */
  ghost predicate LinkedNode(next: seq<nat>, prev: seq<nat>, stale: set<nat>, x: nat)
    requires x < |next| && |next| == |prev|
  {
    && next[x] < |next| && prev[x] < |next|
    && next[x] !in stale && prev[x] !in stale
    && prev[next[x]] == x && next[prev[x]] == x
  }

  /**
   * The circular invariant: every node not in `stale` agrees with its
   * neighbours, which are not stale either. A stale node is one whose links the
   * kit has left indeterminate (a spliced-away sentinel, a replaced entry);
   * nothing in use points to it.
   */
  ghost predicate Circular(next: seq<nat>, prev: seq<nat>, stale: set<nat>) {
    && |next| == |prev|
    && (forall x :: 0 <= x < |next| ==> next[x] < |next| && prev[x] < |next|)
    && forall x {:trigger LinkedNode(next, prev, stale, x)} ::
         0 <= x < |next| && x !in stale ==> LinkedNode(next, prev, stale, x)
  }

  /** Every node of `n0` outside `s` has the same links in `n1`, `p1` as in `n0`, `p0`. */
  ghost predicate Kept(n0: seq<nat>, p0: seq<nat>, n1: seq<nat>, p1: seq<nat>, s: seq<nat>) {
    forall x :: 0 <= x < |n0| && x < |p0| && x !in s ==>
      x < |n1| && x < |p1| && n1[x] == n0[x] && p1[x] == p0[x]
  }

  /** Two changes keep the links outside `s` when the second relinks, below `|n0|`, only nodes of `s`. */
  lemma KeptTrans(n0: seq<nat>, p0: seq<nat>, n1: seq<nat>, p1: seq<nat>, n2: seq<nat>, p2: seq<nat>,
                  s: seq<nat>, t: seq<nat>)
    requires Kept(n0, p0, n1, p1, s) && Kept(n1, p1, n2, p2, t)
    requires forall x :: x in t && x < |n0| && x < |p0| ==> x in s
    ensures Kept(n0, p0, n2, p2, s)
  {
    forall x | 0 <= x < |n0| && x < |p0| && x !in s
      ensures x < |n2| && x < |p2| && n2[x] == n0[x] && p2[x] == p0[x]
    {
      assert x !in t;
    }
  }

  /** Two changes keep the links outside both of their sets. */
  lemma KeptUnion(n0: seq<nat>, p0: seq<nat>, n1: seq<nat>, p1: seq<nat>, n2: seq<nat>, p2: seq<nat>,
                  s: seq<nat>, t: seq<nat>)
    requires Kept(n0, p0, n1, p1, s) && Kept(n1, p1, n2, p2, t)
    ensures Kept(n0, p0, n2, p2, s + t)
  {
    forall x | 0 <= x < |n0| && x < |p0| && x !in s + t
      ensures x < |n2| && x < |p2| && n2[x] == n0[x] && p2[x] == p0[x]
    {
      assert x !in s && x !in t;
    }
  }

  /** The nodes met by following `link` `n` times from `x` (as the traversal loops of the tests do). */
  function Walk(link: seq<nat>, x: nat, n: nat): seq<nat>
    decreases n
  {
    if n == 0 then [] else [x] + Walk(link, if x < |link| then link[x] else x, n - 1)
  }

  function Reverse(s: seq<nat>): (r: seq<nat>)
    ensures |r| == |s|
  {
    if s == [] then [] else [s[|s| - 1]] + Reverse(s[..|s| - 1])
  }

  // ---------------------------------------------------------------- distinctness of rearranged sequences

  lemma DistinctSplice(t: seq<nat>, a: nat, u: seq<nat>)
    requires Distinct(t) && Distinct(u) && Disjoint(u, t) && a <= |t|
    ensures Distinct(t[..a] + u + t[a..])
  {
    var r := t[..a] + u + t[a..];
    forall i, j | 0 <= i < j < |r| ensures r[i] != r[j] {
      if i < a {
        assert r[i] == t[i];
      } else if i < a + |u| {
        assert r[i] == u[i - a];
      } else {
        assert r[i] == t[i - |u|];
      }
      if j < a {
        assert r[j] == t[j];
      } else if j < a + |u| {
        assert r[j] == u[j - a];
      } else {
        assert r[j] == t[j - |u|];
      }
    }
  }

  lemma DistinctRemove(s: seq<nat>, j: nat)
    requires Distinct(s) && j < |s|
    ensures Distinct(s[..j] + s[j + 1..])
  {
    var r := s[..j] + s[j + 1..];
    forall a, b | 0 <= a < b < |r| ensures r[a] != r[b] {
      assert r[a] == s[if a < j then a else a + 1];
      assert r[b] == s[if b < j then b else b + 1];
    }
  }

  lemma DistinctUpdate(s: seq<nat>, i: nat, x: nat)
    requires Distinct(s) && i < |s| && x !in s
    ensures Distinct(s[i := x])
  {
  }

  lemma DistinctRotate(u: seq<nat>, v: seq<nat>)
    requires Distinct(u + v)
    ensures Distinct(v + u)
  {
    var w, w' := u + v, v + u;
    forall i, j | 0 <= i < j < |w'| ensures w'[i] != w'[j] {
      assert w'[i] == w[if i < |v| then i + |u| else i - |v|];
      assert w'[j] == w[if j < |v| then j + |u| else j - |v|];
    }
  }

  // ---------------------------------------------------------------- reading a cycle

  /** The `prev` link of each node of a cycle points at the node before it. */
  lemma PrevAt(next: seq<nat>, prev: seq<nat>, s: seq<nat>, k: nat)
    requires IsCycle(next, prev, s) && k < |s|
    ensures prev[s[k]] == s[Pred(k, |s|)]
  {
    assert LinkedAt(next, prev, s, Pred(k, |s|));
  }

  /** A list is empty (its head links to itself) exactly when the head is its only node. */
  lemma EmptyIffSingleton(next: seq<nat>, prev: seq<nat>, s: seq<nat>)
    requires IsCycle(next, prev, s)
    ensures next[s[0]] == s[0] <==> |s| == 1
    ensures prev[s[0]] == s[0] <==> |s| == 1
  {
    assert LinkedAt(next, prev, s, 0);
    PrevAt(next, prev, s, 0);
  }

  lemma {:induction false} WalkForwardFrom(next: seq<nat>, prev: seq<nat>, s: seq<nat>, k: nat)
    requires IsCycle(next, prev, s) && k < |s|
    ensures Walk(next, s[k], |s| - k) == s[k..]
    decreases |s| - k
  {
    assert LinkedAt(next, prev, s, k);
    if k + 1 < |s| {
      WalkForwardFrom(next, prev, s, k + 1);
      assert s[k..] == [s[k]] + s[k + 1..];
    }
  }

  /** Forward traversal from the head's successor visits the list's elements in order. */
  lemma WalkForward(next: seq<nat>, prev: seq<nat>, s: seq<nat>)
    requires IsCycle(next, prev, s)
    ensures Walk(next, next[s[0]], |s| - 1) == s[1..]
  {
    assert LinkedAt(next, prev, s, 0);
    if |s| > 1 {
      WalkForwardFrom(next, prev, s, 1);
    }
  }

  lemma {:induction false} WalkBackwardFrom(next: seq<nat>, prev: seq<nat>, s: seq<nat>, k: nat)
    requires IsCycle(next, prev, s) && k < |s|
    ensures Walk(prev, s[k], k) == Reverse(s[1..k + 1])
  {
    if k > 0 {
      PrevAt(next, prev, s, k);
      WalkBackwardFrom(next, prev, s, k - 1);
      assert s[1..k + 1][..k - 1] == s[1..k];
    }
  }

  /** Backward traversal from the head's predecessor visits the elements in reverse. */
  lemma WalkBackward(next: seq<nat>, prev: seq<nat>, s: seq<nat>)
    requires IsCycle(next, prev, s)
    ensures Walk(prev, prev[s[0]], |s| - 1) == Reverse(s[1..])
  {
    PrevAt(next, prev, s, 0);
    WalkBackwardFrom(next, prev, s, |s| - 1);
    assert s[1..|s|] == s[1..];
  }

  // ---------------------------------------------------------------- rearranging the description

  /** A cycle may be read from any of its nodes. */
  lemma CycleRotate(next: seq<nat>, prev: seq<nat>, u: seq<nat>, v: seq<nat>)
    requires IsCycle(next, prev, u + v) && v != []
    ensures IsCycle(next, prev, v + u)
  {
    var w, w', n := u + v, v + u, |u| + |v|;
    DistinctRotate(u, v);
    forall k | 0 <= k < n ensures w'[k] < |next| && w'[k] < |prev| && LinkedAt(next, prev, w', k) {
      var m := if k < |v| then k + |u| else k - |v|;
      assert LinkedAt(next, prev, w, m);
      assert w'[k] == w[m];
      assert w'[Succ(k, n)] == w[Succ(m, n)];
    }
  }

  /** A cycle none of whose nodes' links changed is still a cycle. */
  lemma CycleFrame(next: seq<nat>, prev: seq<nat>, next': seq<nat>, prev': seq<nat>, s: seq<nat>)
    requires IsCycle(next, prev, s)
    requires forall k :: 0 <= k < |s| ==> s[k] < |next'| && s[k] < |prev'|
    requires forall k :: 0 <= k < |s| ==> next'[s[k]] == next[s[k]] && prev'[s[k]] == prev[s[k]]
    ensures IsCycle(next', prev', s)
  {
    forall k | 0 <= k < |s| ensures LinkedAt(next', prev', s, k) {
      assert LinkedAt(next, prev, s, k);
    }
  }

  // ---------------------------------------------------------------- the circular invariant under each rewrite

  /** A node that is stale, or an empty list, is the neighbour of no other node in use. */
  lemma NothingPointsTo(next: seq<nat>, prev: seq<nat>, stale: set<nat>, x: nat, y: nat)
    requires Circular(next, prev, stale) && x < |next| && (x in stale || next[x] == x)
    requires y < |next| && y !in stale && y != x
    ensures next[y] != x && prev[y] != x
  {
    assert LinkedNode(next, prev, stale, y);
    if x !in stale {
      assert LinkedNode(next, prev, stale, x);
    }
  }

  /** init_list_head on a node nothing in use points to: it becomes an empty list. */
  lemma CircularSelfLoop(next: seq<nat>, prev: seq<nat>, stale: set<nat>, x: nat)
    requires Circular(next, prev, stale) && x < |next|
    requires x in stale || next[x] == x
    ensures Circular(next[x := x], prev[x := x], stale - {x})
  {
    var next', prev', stale' := next[x := x], prev[x := x], stale - {x};
    forall y | 0 <= y < |next'| && y !in stale' ensures LinkedNode(next', prev', stale', y) {
      if y != x {
        NothingPointsTo(next, prev, stale, x, y);
        assert LinkedNode(next, prev, stale, y);
        assert LinkedNode(next, prev, stale, next[y]);
        assert LinkedNode(next, prev, stale, prev[y]);
      }
    }
  }

  /** A node nothing in use points to may be retired, with any links. */
  lemma CircularRetire(next: seq<nat>, prev: seq<nat>, stale: set<nat>, x: nat, n: nat, p: nat)
    requires Circular(next, prev, stale) && x < |next| && n < |next| && p < |next|
    requires x in stale || next[x] == x
    ensures Circular(next[x := n], prev[x := p], stale + {x})
  {
    var next', prev', stale' := next[x := n], prev[x := p], stale + {x};
    forall y | 0 <= y < |next'| && y !in stale' ensures LinkedNode(next', prev', stale', y) {
      NothingPointsTo(next, prev, stale, x, y);
      assert LinkedNode(next, prev, stale, y);
      assert LinkedNode(next, prev, stale, next[y]);
      assert LinkedNode(next, prev, stale, prev[y]);
    }
  }

  /** __list_add: linking a free node between two consecutive nodes keeps the invariant. */
  lemma CircularAdd(next: seq<nat>, prev: seq<nat>, stale: set<nat>, x: nat, p: nat, n: nat)
    requires Circular(next, prev, stale) && x < |next| && p < |next| && p !in stale
    requires x in stale || next[x] == x
    requires n == next[p] && x != p && x != n
    ensures Circular(next[p := x][x := n], prev[n := x][x := p], stale - {x})
  {
    var next', prev', stale' := next[p := x][x := n], prev[n := x][x := p], stale - {x};
    assert LinkedNode(next, prev, stale, p);
    assert LinkedNode(next, prev, stale, n);
    forall y | 0 <= y < |next'| && y !in stale' ensures LinkedNode(next', prev', stale', y) {
      if y != x {
        NothingPointsTo(next, prev, stale, x, y);
        assert LinkedNode(next, prev, stale, y);
        assert LinkedNode(next, prev, stale, next[y]);
        assert LinkedNode(next, prev, stale, prev[y]);
      }
    }
  }

  /** __list_del: closing the gap around a linked node leaves that node stale. */
  lemma CircularDel(next: seq<nat>, prev: seq<nat>, stale: set<nat>, e: nat)
    requires Circular(next, prev, stale) && e < |next| && e !in stale && next[e] != e
    ensures Circular(next[prev[e] := next[e]], prev[next[e] := prev[e]], stale + {e})
  {
    var p, n := prev[e], next[e];
    var next', prev', stale' := next[p := n], prev[n := p], stale + {e};
    assert LinkedNode(next, prev, stale, e);
    assert LinkedNode(next, prev, stale, p);
    assert LinkedNode(next, prev, stale, n);
    forall y | 0 <= y < |next'| && y !in stale' ensures LinkedNode(next', prev', stale', y) {
      assert LinkedNode(next, prev, stale, y);
      assert LinkedNode(next, prev, stale, next[y]);
      assert LinkedNode(next, prev, stale, prev[y]);
    }
  }

  /**
   * __list_splice: moving the elements of the list at `l` between `p` and
   * `p`'s successor keeps the invariant; the sentinel `l` is left stale.
   */
  lemma CircularSplice(next: seq<nat>, prev: seq<nat>, stale: set<nat>, l: nat, p: nat)
    requires Circular(next, prev, stale) && l < |next| && l !in stale && next[l] != l
    requires p < |next| && p !in stale && l != p && l != next[p]
    requires next[l] != p && next[l] != next[p] && prev[l] != p && prev[l] != next[p]
    ensures Circular(next[p := next[l]][prev[l] := next[p]], prev[next[l] := p][next[p] := prev[l]], stale + {l})
  {
    var first, last, n := next[l], prev[l], next[p];
    var next', prev', stale' := next[p := first][last := n], prev[first := p][n := last], stale + {l};
    forall y | 0 <= y < |next'| && y !in stale' ensures LinkedNode(next', prev', stale', y) {
      CircularSpliceAt(next, prev, stale, l, p, y);
    }
  }

  /** One node `y` in use after `CircularSplice`'s rewrite agrees with its neighbours. */
  lemma CircularSpliceAt(next: seq<nat>, prev: seq<nat>, stale: set<nat>, l: nat, p: nat, y: nat)
    requires Circular(next, prev, stale) && l < |next| && l !in stale && next[l] != l
    requires p < |next| && p !in stale && l != p && l != next[p]
    requires next[l] != p && next[l] != next[p] && prev[l] != p && prev[l] != next[p]
    requires y < |next| && y !in stale && y != l
    ensures LinkedNode(next[p := next[l]][prev[l] := next[p]], prev[next[l] := p][next[p] := prev[l]], stale + {l}, y)
  {
    var first, last, n := next[l], prev[l], next[p];
    assert LinkedNode(next, prev, stale, l);
    assert LinkedNode(next, prev, stale, p);
    assert LinkedNode(next, prev, stale, n);
    assert LinkedNode(next, prev, stale, first);
    assert LinkedNode(next, prev, stale, last);
    assert LinkedNode(next, prev, stale, y);
    assert LinkedNode(next, prev, stale, next[y]);
    assert LinkedNode(next, prev, stale, prev[y]);
  }

  /** list_replace of a linked node: the free node takes its place and the old one is stale. */
  lemma CircularReplace(next: seq<nat>, prev: seq<nat>, stale: set<nat>, o: nat, x: nat)
    requires Circular(next, prev, stale) && o < |next| && o !in stale && next[o] != o
    requires x < |next| && x != o && (x in stale || next[x] == x)
    ensures Circular(next[x := next[o]][prev[o] := x], prev[next[o] := x][x := prev[o]], stale - {x} + {o})
  {
    var p, n := prev[o], next[o];
    var next', prev', stale' := next[x := n][p := x], prev[n := x][x := p], stale - {x} + {o};
    assert LinkedNode(next, prev, stale, o);
    assert LinkedNode(next, prev, stale, p);
    assert LinkedNode(next, prev, stale, n);
    NothingPointsTo(next, prev, stale, x, p);
    NothingPointsTo(next, prev, stale, x, n);
    forall y | 0 <= y < |next'| && y !in stale' ensures LinkedNode(next', prev', stale', y) {
      if y != x {
        NothingPointsTo(next, prev, stale, x, y);
        assert LinkedNode(next, prev, stale, y);
        assert LinkedNode(next, prev, stale, next[y]);
        assert LinkedNode(next, prev, stale, prev[y]);
      }
    }
  }

  // ---------------------------------------------------------------- lists under each rewrite

  /** Consecutive nodes of `u` are linked to each other both ways. */
  ghost predicate ChainAt(next: seq<nat>, prev: seq<nat>, u: seq<nat>, i: nat)
    requires i + 1 < |u|
  {
    u[i] < |next| && u[i + 1] < |prev| && next[u[i]] == u[i + 1] && prev[u[i + 1]] == u[i]
  }

  /**
   * Linking a chain `u` of nodes outside the cycle `t` between `t[k]` and its
   * successor (four link rewrites) makes one cycle with `u`, in order, after `t[k]`.
   */
  lemma SpliceChain(next: seq<nat>, prev: seq<nat>, t: seq<nat>, k: nat, u: seq<nat>)
    requires IsCycle(next, prev, t) && k < |t|
    requires u != [] && Distinct(u) && Disjoint(u, t)
    requires forall i :: 0 <= i < |u| ==> u[i] < |next| && u[i] < |prev|
    requires forall i :: 0 <= i < |u| - 1 ==> ChainAt(next, prev, u, i)
    ensures IsCycle(next[t[k] := u[0]][u[|u| - 1] := t[Succ(k, |t|)]],
                    prev[u[0] := t[k]][t[Succ(k, |t|)] := u[|u| - 1]],
                    t[..k + 1] + u + t[k + 1..])
  {
    var p, n, first, last := t[k], t[Succ(k, |t|)], u[0], u[|u| - 1];
    var next', prev' := next[p := first][last := n], prev[first := p][n := last];
    var r := t[..k + 1] + u + t[k + 1..];
    var m, b := |r|, k + 1 + |u|;
    DistinctSplice(t, k + 1, u);
    assert m == |t| + |u|;
    forall i | 0 <= i < m ensures r[i] < |next'| && r[i] < |prev'| && LinkedAt(next', prev', r, i) {
      if i < k || b <= i {
        SpliceKeepsOld(next, prev, t, k, u, i);
      } else if i == k || i == b - 1 {
        SpliceSeam(next, prev, t, k, u, i);
      } else {
        SpliceKeepsChain(next, prev, t, k, u, i);
      }
    }
  }

  /** In `SpliceChain`, the two rewritten links: `t[k]` to `u[0]` and `u`'s last node to `t[k]`'s successor. */
  lemma SpliceSeam(next: seq<nat>, prev: seq<nat>, t: seq<nat>, k: nat, u: seq<nat>, i: nat)
    requires IsCycle(next, prev, t) && k < |t| && u != [] && Disjoint(u, t)
    requires u[0] < |next| && u[0] < |prev| && u[|u| - 1] < |next| && u[|u| - 1] < |prev|
    requires i == k || i == k + |u|
    ensures var r := t[..k + 1] + u + t[k + 1..];
            LinkedAt(next[t[k] := u[0]][u[|u| - 1] := t[Succ(k, |t|)]],
                     prev[u[0] := t[k]][t[Succ(k, |t|)] := u[|u| - 1]], r, i)
  {
    var r := t[..k + 1] + u + t[k + 1..];
    assert |r| == |t| + |u|;
    assert u[0] !in t && u[|u| - 1] !in t;
    if i == k {
      assert r[k] == t[k] && r[k + 1] == u[0] && Succ(k, |r|) == k + 1;
    } else if k + 1 < |t| {
      assert r[i] == u[|u| - 1] && Succ(k, |t|) == k + 1 && Succ(i, |r|) == i + 1 && r[i + 1] == t[k + 1];
    } else {
      assert r[i] == u[|u| - 1] && Succ(k, |t|) == 0 && Succ(i, |r|) == 0 && r[0] == t[0];
    }
  }

  /** In `SpliceChain`, a link between two nodes of `t` other than `t[k]` is untouched. */
  lemma SpliceKeepsOld(next: seq<nat>, prev: seq<nat>, t: seq<nat>, k: nat, u: seq<nat>, i: nat)
    requires IsCycle(next, prev, t) && k < |t| && u != [] && Disjoint(u, t)
    requires u[0] < |prev| && u[|u| - 1] < |next|
    requires i < k || k + 1 + |u| <= i < |t| + |u|
    ensures var r := t[..k + 1] + u + t[k + 1..];
            LinkedAt(next[t[k] := u[0]][u[|u| - 1] := t[Succ(k, |t|)]],
                     prev[u[0] := t[k]][t[Succ(k, |t|)] := u[|u| - 1]], r, i)
  {
    var p, n, first, last := t[k], t[Succ(k, |t|)], u[0], u[|u| - 1];
    var r := t[..k + 1] + u + t[k + 1..];
    var oi := if i < k then i else i - |u|;
    assert |r| == |t| + |u|;
    assert first !in t && last !in t;
    assert r[i] == t[oi];
    assert r[Succ(i, |r|)] == t[Succ(oi, |t|)];
    assert LinkedAt(next, prev, t, oi);
    assert Distinct(t);
    assert t[oi] != p && t[Succ(oi, |t|)] != n;
  }

  /** In `SpliceChain`, a link inside the chain `u` is untouched. */
  lemma SpliceKeepsChain(next: seq<nat>, prev: seq<nat>, t: seq<nat>, k: nat, u: seq<nat>, i: nat)
    requires IsCycle(next, prev, t) && k < |t| && Distinct(u) && Disjoint(u, t)
    requires u != [] && forall i :: 0 <= i < |u| ==> u[i] < |next| && u[i] < |prev|
    requires forall i :: 0 <= i < |u| - 1 ==> ChainAt(next, prev, u, i)
    requires k < i < k + |u|
    ensures var r := t[..k + 1] + u + t[k + 1..];
            LinkedAt(next[t[k] := u[0]][u[|u| - 1] := t[Succ(k, |t|)]],
                     prev[u[0] := t[k]][t[Succ(k, |t|)] := u[|u| - 1]], r, i)
  {
    var r := t[..k + 1] + u + t[k + 1..];
    assert ChainAt(next, prev, u, i - k - 1);
    assert r[i] == u[i - k - 1] && r[i + 1] == u[i - k] && Succ(i, |r|) == i + 1;
    assert u[i - k - 1] != u[|u| - 1] && u[i - k] != u[0];
    assert u[i - k - 1] !in t && u[i - k] !in t;
  }

  /** __list_add between `s[k]` and its successor inserts `x` right after position `k`. */
  lemma InsertAfter(next: seq<nat>, prev: seq<nat>, s: seq<nat>, k: nat, x: nat)
    requires IsCycle(next, prev, s) && k < |s| && x < |next| && x < |prev| && x !in s
    ensures IsCycle(next[s[k] := x][x := s[Succ(k, |s|)]], prev[s[Succ(k, |s|)] := x][x := s[k]],
                    s[..k + 1] + [x] + s[k + 1..])
  {
    SpliceChain(next, prev, s, k, [x]);
    assert x != s[Succ(k, |s|)];
    assert prev[x := s[k]][s[Succ(k, |s|)] := x] == prev[s[Succ(k, |s|)] := x][x := s[k]];
  }

  /**
   * __list_splice of the list `s` (sentinel `s[0]`, two or more nodes) between
   * `t[k]` and its successor: the elements of `s`, in order, follow `t[k]`.
   */
  lemma SpliceAfter(next: seq<nat>, prev: seq<nat>, s: seq<nat>, t: seq<nat>, k: nat)
    requires IsCycle(next, prev, s) && |s| > 1 && IsCycle(next, prev, t) && k < |t| && Disjoint(s, t)
    ensures IsCycle(next[t[k] := s[1]][s[|s| - 1] := t[Succ(k, |t|)]],
                    prev[s[1] := t[k]][t[Succ(k, |t|)] := s[|s| - 1]],
                    t[..k + 1] + s[1..] + t[k + 1..])
  {
    var u := s[1..];
    forall i | 0 <= i < |u| ensures u[i] == s[i + 1] && u[i] !in t {
    }
    forall i | 0 <= i < |u| - 1 ensures ChainAt(next, prev, u, i) {
      assert LinkedAt(next, prev, s, i + 1);
      assert Succ(i + 1, |s|) == i + 2;
    }
    DistinctRemove(s, 0);
    SpliceChain(next, prev, t, k, u);
  }

  /** __list_del of the node at position `j` of a list of two or more removes it from the list. */
  lemma RemoveAt(next: seq<nat>, prev: seq<nat>, s: seq<nat>, j: nat)
    requires IsCycle(next, prev, s) && j < |s| && |s| > 1
    ensures IsCycle(next[s[Pred(j, |s|)] := s[Succ(j, |s|)]], prev[s[Succ(j, |s|)] := s[Pred(j, |s|)]],
                    s[..j] + s[j + 1..])
  {
    var p, n := s[Pred(j, |s|)], s[Succ(j, |s|)];
    var next', prev' := next[p := n], prev[n := p];
    var r := s[..j] + s[j + 1..];
    var m := |r|;
    DistinctRemove(s, j);
    assert forall i :: 0 <= i < m ==> r[i] == s[if i < j then i else i + 1];
    forall i | 0 <= i < m ensures r[i] < |next'| && r[i] < |prev'| && LinkedAt(next', prev', r, i) {
      var oi := if i < j then i else i + 1;
      var oi' := if Succ(i, m) < j then Succ(i, m) else Succ(i, m) + 1;
      assert r[Succ(i, m)] == s[oi'];
      assert LinkedAt(next, prev, s, oi);
      if Succ(oi, |s|) == j {
        assert oi == Pred(j, |s|);
        assert oi' == Succ(j, |s|);
      } else {
        assert oi' == Succ(oi, |s|);
        assert oi != Pred(j, |s|) && Succ(oi, |s|) != Succ(j, |s|);
      }
    }
  }

  /** list_replace of the node at position `i` of a list of two or more by a node outside it. */
  lemma ReplaceAt(next: seq<nat>, prev: seq<nat>, s: seq<nat>, i: nat, x: nat)
    requires IsCycle(next, prev, s) && i < |s| && |s| > 1 && x < |next| && x < |prev| && x !in s
    ensures IsCycle(next[x := s[Succ(i, |s|)]][s[Pred(i, |s|)] := x], prev[s[Succ(i, |s|)] := x][x := s[Pred(i, |s|)]],
                    s[i := x])
  {
    var p, n := s[Pred(i, |s|)], s[Succ(i, |s|)];
    var next', prev' := next[x := n][p := x], prev[n := x][x := p];
    var r := s[i := x];
    DistinctUpdate(s, i, x);
    forall k | 0 <= k < |s| ensures r[k] < |next'| && r[k] < |prev'| && LinkedAt(next', prev', r, k) {
      assert LinkedAt(next, prev, s, k);
      if k == i {
        assert Succ(i, |s|) != i;
      } else if k == Pred(i, |s|) {
        assert Succ(k, |s|) == i;
      } else {
        assert Succ(k, |s|) != i && Succ(k, |s|) != Succ(i, |s|);
      }
    }
  }

  /** A node that links to itself and lies on a cycle is that whole cycle. */
  lemma SelfLoopCycle(next: seq<nat>, prev: seq<nat>, s: seq<nat>, x: nat)
    requires IsCycle(next, prev, s) && x in s && x < |next| && next[x] == x
    ensures s == [x]
  {
    var k :| 0 <= k < |s| && s[k] == x;
    assert LinkedAt(next, prev, s, k);
    assert Succ(k, |s|) == k;
    assert |s| == 1;
  }

  /** The nodes of a splice are those of its two parts. */
  lemma MembersSplice(t: seq<nat>, a: nat, u: seq<nat>)
    requires a <= |t|
    ensures forall y :: y in t[..a] + u + t[a..] ==> y in t || y in u
  {
    forall y | y in t[..a] + u + t[a..] ensures y in t || y in u {
      var r := t[..a] + u + t[a..];
      var i :| 0 <= i < |r| && r[i] == y;
      if i < a { assert r[i] == t[i]; }
      else if i >= a + |u| { assert r[i] == t[i - |u|]; }
      else { assert r[i] == u[i - a]; }
    }
  }

  /** Removing position `j` of a sequence without repetitions drops exactly that node. */
  lemma MembersRemove(s: seq<nat>, j: nat)
    requires Distinct(s) && j < |s|
    ensures forall y :: y in s[..j] + s[j + 1..] <==> y in s && y != s[j]
  {
    var r := s[..j] + s[j + 1..];
    forall y ensures y in r <==> y in s && y != s[j] {
      if y in r {
        var i :| 0 <= i < |r| && r[i] == y;
        if i < j { assert r[i] == s[i]; } else { assert r[i] == s[i + 1]; }
      }
      if y in s && y != s[j] {
        var i :| 0 <= i < |s| && s[i] == y;
        if i < j { assert r[i] == y; } else { assert r[i - 1] == y; }
      }
    }
  }

  /** Overwriting position `i` of a sequence without repetitions trades `s[i]` for `x`. */
  lemma MembersUpdate(s: seq<nat>, i: nat, x: nat)
    requires Distinct(s) && i < |s|
    ensures forall y :: y in s[i := x] <==> y == x || (y in s && y != s[i])
  {
    forall y ensures y in s[i := x] <==> y == x || (y in s && y != s[i]) {
      if y in s && y != s[i] {
        var k :| 0 <= k < |s| && s[k] == y;
        assert s[i := x][k] == y;
      }
      if y in s[i := x] && y != x {
        var k :| 0 <= k < |s| && s[i := x][k] == y;
        assert k != i && s[k] == y;
      }
      assert s[i := x][i] == x;
    }
  }

  /** __list_add between the last node of `s` and its head appends `x`. */
  lemma AppendAtEnd(next: seq<nat>, prev: seq<nat>, s: seq<nat>, x: nat)
    requires IsCycle(next, prev, s) && x < |next| && x < |prev| && x !in s
    ensures IsCycle(next[s[|s| - 1] := x][x := s[0]], prev[s[0] := x][x := s[|s| - 1]], s + [x])
  {
    var k := |s| - 1;
    InsertAfter(next, prev, s, k, x);
    assert s[..k + 1] + [x] + s[k + 1..] == s + [x];
  }

  /**
   * list_replace of a node `o` that links to itself: `x` ends up linked to
   * itself, and `o` keeps its own forward link but points back at `x`.
   */
  lemma CircularReplaceEmpty(next: seq<nat>, prev: seq<nat>, stale: set<nat>, o: nat, x: nat)
    requires Circular(next, prev, stale) && o < |next| && o !in stale && next[o] == o
    requires x < |next| && x != o && (x in stale || next[x] == x)
    ensures Circular(next[x := x], prev[o := x][x := x], stale - {x} + {o})
  {
    CircularSelfLoop(next, prev, stale, x);
    CircularRetire(next[x := x], prev[x := x], stale - {x}, o, o, x);
    assert next[x := x][o := o] == next[x := x];
    assert prev[x := x][o := x] == prev[o := x][x := x];
  }

  /** Writes to two different positions commute. */
  lemma UpdatesCommute(s: seq<nat>, i: nat, a: nat, j: nat, b: nat)
    requires i < |s| && j < |s| && i != j
    ensures s[i := a][j := b] == s[j := b][i := a]
  {
  }

  /**
   * The four link writes of list_replace, in their order, replacing `s[i]`
   * by the free node `x`: `n1`, `p1`, `p2`, `n2` are the link tables after
   * each write.
   */
  lemma ReplaceSteps(next: seq<nat>, prev: seq<nat>, stale: set<nat>, s: seq<nat>, i: nat, x: nat,
                     n1: seq<nat>, p1: seq<nat>, p2: seq<nat>, n2: seq<nat>)
    requires Circular(next, prev, stale) && IsCycle(next, prev, s) && i < |s| && s[i] !in stale
    requires x < |next| && x !in s && (x in stale || next[x] == x)
    requires n1 == next[x := next[s[i]]]
    requires x < |n1| && n1[x] < |prev| && p1 == prev[n1[x] := x]
    requires s[i] < |p1| && p2 == p1[x := p1[s[i]]]
    requires x < |p2| && p2[x] < |n1| && n2 == n1[p2[x] := x]
    ensures Circular(n2, p2, stale - {x} + {s[i]}) && IsCycle(n2, p2, s[i := x])
    ensures |s| > 1 ==> n2 == next[x := s[Succ(i, |s|)]][s[Pred(i, |s|)] := x]
    ensures |s| > 1 ==> p2 == prev[s[Succ(i, |s|)] := x][x := s[Pred(i, |s|)]]
    ensures |s| == 1 ==> n2 == next[x := x] && p2 == prev[s[i] := x][x := x]
    ensures forall y :: 0 <= y < |next| && y != x && y !in s ==> n2[y] == next[y] && p2[y] == prev[y]
  {
    var o := s[i];
    assert LinkedAt(next, prev, s, i);
    PrevAt(next, prev, s, i);
    if |s| > 1 {
      assert s[Succ(i, |s|)] != o;
      assert n2 == next[x := next[o]][prev[o] := x];
      assert p2 == prev[next[o] := x][x := prev[o]];
      CircularReplace(next, prev, stale, o, x);
      ReplaceAt(next, prev, s, i, x);
    } else {
      assert n2 == next[x := x];
      assert p2 == prev[o := x][x := x];
      CircularReplaceEmpty(next, prev, stale, o, x);
      assert s[i := x] == [x];
      assert LinkedAt(n2, p2, [x], 0);
    }
    forall y | 0 <= y < |next| && y != x && y !in s ensures n2[y] == next[y] && p2[y] == prev[y] {
      assert y != s[Pred(i, |s|)] && y != s[Succ(i, |s|)];
    }
  }

  lemma DisjointSymmetric(s: seq<nat>, t: seq<nat>)
    requires Disjoint(s, t)
    ensures Disjoint(t, s)
  {
    forall k | 0 <= k < |t| ensures t[k] !in s {
      assert t[k] in t;
    }
  }

  /**
   * The four link writes of __list_splice, in their order, linking the
   * entries of `s` (sentinel `s[0]`) between `t[k]` and its successor:
   * `p1`, `n1`, `n2`, `p2` are the link tables after each write.
   */
  lemma SpliceSteps(next: seq<nat>, prev: seq<nat>, stale: set<nat>, s: seq<nat>, t: seq<nat>, k: nat,
                    p1: seq<nat>, n1: seq<nat>, n2: seq<nat>, p2: seq<nat>)
    requires Circular(next, prev, stale) && IsCycle(next, prev, s) && |s| > 1 && IsCycle(next, prev, t)
    requires k < |t| && Disjoint(s, t) && s[0] !in stale && t[k] !in stale
    requires p1 == prev[s[1] := t[k]] && n1 == next[t[k] := s[1]]
    requires n2 == n1[s[|s| - 1] := t[Succ(k, |t|)]] && p2 == p1[t[Succ(k, |t|)] := s[|s| - 1]]
    ensures Circular(n2, p2, stale + {s[0]})
    ensures IsCycle(n2, p2, t[..k + 1] + s[1..] + t[k + 1..])
    ensures forall y :: y in t[..k + 1] + s[1..] + t[k + 1..] ==> y in t || (y in s && y != s[0])
    ensures forall y :: 0 <= y < |next| && y !in s && y !in t ==> n2[y] == next[y] && p2[y] == prev[y]
  {
    var l, p, n := s[0], t[k], t[Succ(k, |t|)];
    assert LinkedAt(next, prev, s, 0);
    PrevAt(next, prev, s, 0);
    assert LinkedAt(next, prev, t, k);
    assert t[k] in t && t[Succ(k, |t|)] in t;
    assert s[1] in s && s[|s| - 1] in s && s[1] != l && s[|s| - 1] != l;
    assert Circular(n2, p2, stale + {l}) by {
      CircularSplice(next, prev, stale, l, p);
    }
    assert IsCycle(n2, p2, t[..k + 1] + s[1..] + t[k + 1..]) by {
      SpliceAfter(next, prev, s, t, k);
    }
    assert forall y :: y in s[1..] ==> y in s && y != l by {
      forall y | y in s[1..] ensures y in s && y != l {
        var i :| 0 <= i < |s| - 1 && s[1..][i] == y;
        assert s[i + 1] == y;
      }
    }
    MembersSplice(t, k + 1, s[1..]);
    forall y | 0 <= y < |next| && y !in s && y !in t ensures n2[y] == next[y] && p2[y] == prev[y] {
      assert y != p && y != n && y != s[1] && y != s[|s| - 1];
    }
  }
}
