# Intrusive circular list kit, merge and list_sort

This project models `src/list.rs` of the RDS crate in Dafny. That file ports the
Linux kernel's `list_head` kit to Rust. Every `ListHead` node carries `next`, `prev`
and an `i32` payload `item`, and any node can serve as the sentinel (head) of a
circular doubly-linked list. The kit's operations rewrite a few link fields in
place. On top of that sit `merge`, a stable two-way merge of two lists, and
`list_sort`, a bottom-up merge sort driven by a `count` bit counter and a
`pending` stack of runs.

The model has five modules:

- `Compare` (compare.dfy) is `cmp_func`.
- `SortSpec` (sort_spec.dfy) is the value-level specification. `Merge` is the
  two-way merge with the tie rule of the source, which keeps the left front unless
  it compares `Greater`. `Sort` is a stable insertion sort used as the reference.
  The lemmas prove that both are permutations, that both produce ascending
  output, that both are stable, and that merging the sorted runs of two adjacent
  stretches gives the sorted run of both together.
- `Cycles` (cycles.dfy) handles the link tables.
  - `Circular(next, prev, stale)` is the invariant `x.next.prev == x && x.prev.next == x`
    for every node in use.
  - `IsCycle(next, prev, s)` says that the sequence of handles `s` is one circular
    list read forward from its sentinel `s[0]`.
  - One lemma per link rewrite says what that rewrite does to both.
  - `WalkForward` and `WalkBackward` say what a traversal by `next` and by `prev` visits.
- `Runs` (runs.dfy) holds `list_sort`'s bookkeeping.
  - `SortInv` is the state of the input loop: the runs on the stack, the rest of the
    input, and the links outside the list.
  - `StripOnes` is the inner `bits` loop.
- `List` (list.dfy) is the kit itself. It is the class `Arena`, with the link tables
  `next`, `prev` and the payloads `item` as sequence fields that every operation
  updates in place.
  - A node handle is an index.
  - `new` appends a node, so a handle stays valid as an `Rc` does.
  - The ghost set `stale` holds nodes whose links the source leaves dangling: an
    entry unlinked by `__list_del_entry`, the node `list_replace` replaced, or a
    sentinel that was spliced away.
  - Each operation is a method. Its `ensures` gives the new link tables, or the new
    lists as sequences of handles. It also says that `Valid()` (the circular
    invariant) is kept and that no link outside the lists involved changed (`LinksKept`).

`merge` and `list_sort` are proved against `SortSpec`. The list `merge` returns
reads, after its sentinel, `SortSpec.Merge` of the two inputs' entries.
`list_sort` returns the sentinel of a list that reads `SortSpec.Sort` of its
input's entries, under the payloads the input had on entry. By the `SortSpec`
lemmas, that list is the input ascending and equal payloads keep their input order.
Forward and backward traversal (the loops of the sort test) give that order and its
reverse (`Cycles.WalkForward`, `Cycles.WalkBackward`). Every `pending.pop()` meets
a non-empty stack: this is the precondition `|pending| >= 2` of `MergeTop` and
`|pending| >= 1` of `MergeAll`, both proved at every call.

Some behaviours of the code are easy to get wrong, and the model follows the code
in each:

- **Empty inputs.** `merge` and `list_sort` do not special-case an empty
  input. Both start from `head.next`, which for an empty list is the sentinel
  itself, and treat that node as data. `Runs.Elements(l)` is therefore
  `l[1..]` for a non-empty list and `[l[0]]` for an empty one. An empty list
  passed to `list_sort` comes back as a one-element list holding its own
  sentinel, with payload `item[head]`. The model states this instead of excluding
  empty inputs.
- **Which runs are merged.** `list_sort` merges whenever the bits of `count` left
  after stripping its trailing ones are non-zero (`Runs.StripOnesZero`: no merge
  exactly when `count + 1` is a power of two). It then always merges the two
  topmost runs. The Linux kernel picks the runs to merge from the position of the
  lowest clear bit; the code here does not, and the model follows the code. The
  result is still a correct, stable sort, because each merge is `merge(b, a)` with
  `b`, the run pushed earlier, on the left. Only the balance of the merges differs.
- **`list_splice`.** The model captures `head.next` as a value before the four
  rewrites of `__list_splice`, which is what the code intends (see "Left out").

## Model

| member | source | states |
|---|---|---|
| Compare.CmpFunc | src/list.rs:7-15 | the result is `Less`, `Greater` or `Equal` exactly when the first payload is below, above or equal to the second |
| List.Arena.New | src/list.rs:26-38 | appends one node carrying `num`, linked to itself both ways (an empty list); no other link changes and the invariant holds |
| List.Arena.InitListHead | src/list.rs:48-51 | the node links to itself both ways, becomes an empty list and leaves `stale`; nothing else changes |
| Cycles.CircularSelfLoop | src/list.rs:48-51 | linking a node that nothing in use points to (stale or an empty list) to itself keeps the invariant and puts the node in use |
| List.Arena.ListEmpty | src/list.rs:59-61 | `true` exactly when `head.next == head`, equivalently `head.prev == head`, equivalently the list headed by `head` has no entries |
| Cycles.EmptyIffSingleton | src/list.rs:59-61 | on a circular list, the head links to itself (either way) exactly when the head is its only node |
| List.Arena.AddBetween | src/list.rs:70-75 | the four writes of `__list_add`: the new tables are the old ones with `prv.next`, `node.next`, `nxt.prev` and `node.prev` rewritten; the invariant holds |
| Cycles.CircularAdd | src/list.rs:70-75 | linking a free node between two consecutive nodes keeps the circular invariant for every node |
| Cycles.InsertAfter | src/list.rs:70-75 | linking a node outside a cycle between `s[k]` and its successor gives the cycle `s[..k + 1] + [x] + s[k + 1..]` |
| List.Arena.ListAdd | src/list.rs:86-89 | `node` lands right after `head` at position `k` of the list `s`; exactly the four links around it change; no link outside `s` changes |
| List.Arena.ListAddTail | src/list.rs:101-104 | `node` lands right before `head`, at the end of `s`; exactly the four links around it change; no link outside `s` changes |
| Cycles.AppendAtEnd | src/list.rs:101-104 | linking `x` between the last node of a cycle and its head makes the cycle `s + [x]` |
| List.Arena.DelBetween | src/list.rs:114-117 | `prv.next := nxt` and `nxt.prev := prv`, nothing else; the unlinked entry becomes stale and the invariant holds |
| Cycles.CircularDel | src/list.rs:114-117 | closing the gap around a linked node keeps the invariant for every other node |
| Cycles.CircularRetire | src/list.rs:146-151 | a node that nothing in use points to may be given any links and made stale, as `list_replace` leaves its old node, without breaking the invariant |
| Cycles.RemoveAt | src/list.rs:114-117 | closing the gap around position `j` of a cycle of two or more leaves the cycle without that node, in order |
| List.Arena.DelEntry | src/list.rs:120-124 | an entry of a list of two or more is taken off: its neighbours are joined and the list minus the entry is still a list; an entry that is an empty list is left alone |
| List.Arena.ListDelInit | src/list.rs:132-135 | the entry is taken off its list, which minus the entry is still a list, and is left an empty list of its own; no link outside the list changes |
| List.Arena.ListReplace | src/list.rs:146-151 | `newNode` takes the position of `oldNode` in its list: the old neighbours point to `newNode` and `newNode` to them; `oldNode` becomes stale; when `oldNode` was an empty list, where the code panics (see "Left out"), the model gives the documented intent: `newNode` becomes an empty list and `oldNode.prev` points at it |
| Cycles.CircularReplace | src/list.rs:146-151 | the writes of `list_replace` on a node that is not an empty list keep the invariant, with the new node in use and the old one stale |
| Cycles.CircularReplaceEmpty | src/list.rs:146-151 | the intended writes of `list_replace` on a node that is an empty list keep the invariant: the new node links to itself and the old one is stale |
| Cycles.ReplaceAt | src/list.rs:146-151 | putting a node outside a cycle of two or more at position `i` gives the cycle `s[i := x]` |
| List.Arena.ListReplaceInit | src/list.rs:162-165 | as `ListReplace`, including its intended result for an empty `oldNode`, and `oldNode` is left an empty list |
| List.Arena.ListSwap | src/list.rs:174-184 | the nodes at positions `i` and `j` of one list trade places, including the adjacent case where `entry2.prev == entry1`; on a list of two nodes, where the code panics (see "Left out"), the model gives the intended swap; no other link outside the list changes |
| List.SwapShape | src/list.rs:174-184 | the lists `list_swap` passes through (after the delete, after the replace) and the position after which `entry1` is re-added; re-adding there yields `s[i := s[j]][j := s[i]]`, up to rotation when `j` is 0 |
| List.Arena.ListMove | src/list.rs:193-196 | the entry leaves its list (which minus the entry is still a list, the empty list when the entry was its only one) and lands right after `head` in another list |
| List.Arena.ListMoveTail | src/list.rs:205-208 | the entry leaves its list and lands right before `head`, at the end of another list |
| List.Arena.SpliceBetween | src/list.rs:212-218 | the entries of a non-empty list, in order, land between `prv` and `nxt`; exactly four links change and the emptied sentinel becomes stale |
| Cycles.SpliceChain | src/list.rs:212-218 | linking a chain of nodes outside a cycle after position `k` makes one cycle with the chain, in order, after `t[k]` |
| Cycles.CircularSplice | src/list.rs:212-218 | the four writes of `__list_splice` keep the invariant for every node but the spliced-away sentinel |
| List.Arena.ListSplice | src/list.rs:226-230 | an empty `list` changes nothing; otherwise its entries, in order, follow `head` in `head`'s list and `list` becomes stale |
| List.Arena.ListSpliceTail | src/list.rs:237-245 | an empty `list` changes nothing; otherwise its entries, in order, follow the last entry of `head`'s list and `list` becomes stale; an empty `head`, where the code panics (see "Left out"), gets the intended result, `head` followed by the entries |
| List.Arena.MergeStart | src/list.rs:263-271 | a new sentinel carrying 0; the first entries of both inputs are read before both sentinels are made empty lists; what remains of each input is a cycle of its entries |
| List.Arena.MergeUnlink | src/list.rs:268-269 | both input sentinels become empty lists, the entries of each input form a cycle of their own, and the new sentinel is untouched |
| List.Arena.MergeTake | src/list.rs:275-291 | the front entry of a run moves to the end of the output list; the new cursor is the next entry of the run, or None exactly when the run had one entry |
| List.Arena.MergeRest | src/list.rs:293-304 | a temporary node carrying -1 is linked in front of the rest of a run, which is then spliced whole onto the end of the output; the temporary node becomes stale |
| List.Arena.MergeStep | src/list.rs:274-291 | one comparison: the merge state is kept, with the front that does not compare `Greater` (the `a` front on ties) moved to the output; the runs shrink |
| List.Arena.MergeFinish | src/list.rs:293-305 | once one run is exhausted, the output list is `SortSpec.Merge` of both runs and the temporary node is the only new stale node |
| List.Arena.MergeLoop | src/list.rs:273-308 | the loop of `merge`: the output list ends up as `SortSpec.Merge` of the two runs |
| List.Arena.Merge | src/list.rs:263-311 | returns a new sentinel whose list is `SortSpec.Merge` of the two inputs' entries (an empty input contributes its sentinel); a used-up input sentinel is an empty list; no link outside both inputs changes |
| SortSpec.MergePermutation | src/list.rs:263-311 | the merge is a permutation of both inputs together, of their summed length |
| SortSpec.MergeMembers | src/list.rs:263-311 | a node is in the merge exactly when it is in one of the inputs |
| SortSpec.MergeSorted | src/list.rs:263-311 | the merge of two ascending sequences is ascending |
| SortSpec.MergeStable | src/list.rs:276 | among nodes of one payload, all those of the left input come first, each side in its own order |
| SortSpec.MergeSameKeys | src/list.rs:263-311 | the merge depends only on the payloads of the nodes it is given |
| Runs.StripTrailingOnes | src/list.rs:321-325 | returns `count` with its trailing one bits shifted out, an even number |
| Runs.StripOnesZero | src/list.rs:321-332 | no merge happens (the stripped count is 0) exactly when `count + 1` is a power of two |
| List.Arena.MergeTop | src/list.rs:327-332 | pops the two top runs and pushes their merge, earlier run on the left; the sort state is kept with the two runs' stretches joined |
| Runs.MergeTopInv | src/list.rs:328-331 | the state of the sort survives merging the two top runs: the new run is the sorted run of both stretches together |
| Runs.MergedRun | src/list.rs:331 | the merge of the two top runs, each the sorted run of its stretch, is the sorted run of the two stretches together |
| List.Arena.MergeIfDue | src/list.rs:321-332 | when the stripped count is 0 nothing changes; otherwise one merge happens, which needs at least two entries taken, and the stack shrinks by one |
| List.Arena.SortPush | src/list.rs:334-340 | the current entry is taken off the input and pushed as a run of one under a new sentinel; the returned entry is the next one, or the input sentinel exactly when the input is done |
| List.Arena.NewRun | src/list.rs:337-338 | a new sentinel carrying -1 with the entry as its only element |
| Runs.PushInv | src/list.rs:334-340 | the state of the sort survives taking one more entry and pushing it as a run of one |
| Runs.NextInRemaining | src/list.rs:334 | the successor of the current entry is the next entry not yet taken, or the input sentinel after the last |
| List.Arena.SortStep | src/list.rs:320-346 | one pass of the input loop keeps the state, and ends the loop exactly when all entries are taken |
| List.Arena.SortRuns | src/list.rs:317-347 | the input loop ends with every entry taken and at least one run pending |
| Runs.SortStart | src/list.rs:315-318 | the state holds before the first pass, with no entry taken and no run pending |
| List.Arena.MergeAll | src/list.rs:349-354 | merges the two top runs until exactly one is left, keeping the state |
| Runs.SortDone | src/list.rs:349-356 | with every entry taken and one run left, that run's list is the reference sort of the input's entries |
| List.Arena.ListSort | src/list.rs:314-357 | returns a sentinel whose list is `SortSpec.Sort` of the input's entries by their payloads on entry; an input with entries leaves its sentinel an empty list; no link outside the input changes, payloads of existing nodes are kept, and the only nodes that become stale are ones allocated during the sort, so every list disjoint from the input is still a list |
| SortSpec.SortPermutation | src/list.rs:314-357 | the reference sort is a permutation of its input: nothing lost or duplicated |
| SortSpec.SortSorted | src/list.rs:314-357 | the reference sort is ascending |
| SortSpec.SortStable | src/list.rs:314-357 | nodes with equal payloads keep their input order |
| SortSpec.SortOfSorted | src/list.rs:314-357 | sorting an ascending sequence returns it unchanged |
| SortSpec.SortIdempotent | src/list.rs:314-357 | sorting twice is sorting once |
| SortSpec.MergeOfSorts | src/list.rs:331 | merging the sorted runs of two adjacent stretches, left stretch on the left, is the sorted run of both together |
| Cycles.WalkForward | src/list.rs:568-580 | following `next` from the head's successor visits the list's entries in order |
| Cycles.WalkBackward | src/list.rs:582-597 | following `prev` from the head's predecessor visits the list's entries in reverse order |

## Left out

- `Rc`/`RefCell` mechanics: reference counting, run-time borrow checks and the reclaiming of unreachable nodes. Nodes are arena indices and are never freed.
- List.Arena.ListSplice: as written, a non-empty `list_splice` panics at run time. It passes a live shared borrow of `head.next` (src/list.rs:228) into `__list_splice`, which then borrows `head` mutably (src/list.rs:214). The model gives the intended behaviour, with `head.next` read as a value first, and does not model the panic.
- List.Arena.ListReplace: as written, `list_replace` panics at run time when `old` is an empty list. Then `new.prev` is `new` itself after src/list.rs:149, and src/list.rs:150 borrows `new` mutably while a shared borrow of `new` is still live. The model gives the documented intent (src/list.rs:143): `new` becomes an empty list.
- List.Arena.ListReplaceInit: it calls `list_replace` (src/list.rs:163), so it panics on an empty `old` too. The model gives the intended result.
- List.Arena.ListSwap: as written, `list_swap` panics on a list of exactly two nodes. `list_del_init(entry2)` (src/list.rs:177) leaves `entry1` an empty list, and `list_replace(entry1, entry2)` (src/list.rs:178) then panics as above. The model gives the intended swap.
- List.Arena.ListSpliceTail: as written, a non-empty `list_splice_tail` into an empty `head` panics at run time. At src/list.rs:240, `head.prev` is `head` itself, which is borrowed mutably while a shared borrow of `head` is live, after src/list.rs:239 has already written a link. The model gives the intended splice. `merge` never meets this case: it splices only after at least one entry has moved to its output.
- `list_show` and src/main.rs: console output only.
- The sort test's random payloads and its `SortedVec` oracle; `SortSpec.Sort` is the reference instead.
- The comparator parameter of `merge` and `list_sort`: the only comparator in the source, `cmp_func`, is built in.
- List.Arena.ListSort: returns the sentinel itself rather than `Option`, because the source's `pending.pop()` always returns `Some` here (the stack is never empty at that point, as the model proves).
- List.Arena.Merge: returns the sentinel itself rather than `Option`, because the source always returns `Some`.
- List.Arena.ListSort: `count` is an `i32` in the source and would overflow after 2^31 entries; the model uses an unbounded `nat`.
- Payloads are unbounded integers; the source's `i32` payloads are only compared, never computed with, so no width matters.
- List.Arena.ListAdd, List.Arena.ListAddTail, List.Arena.ListReplace, List.Arena.ListReplaceInit: the node to insert must be free, meaning stale or an empty list of its own. Inserting a node that is still on a list corrupts that list in the source, and the model does not describe the result.
- List.Arena.ListMove, List.Arena.ListMoveTail, List.Arena.ListSplice, List.Arena.ListSpliceTail: the two lists must be different lists. Moves and splices within one list are not modelled.
- List.Arena.ListSwap: the two nodes must be different nodes of one list. Swapping nodes of two different lists is not modelled.
- The model does not prove that the merges of `list_sort` are balanced. That depends on the choice of runs, which differs from the kernel's, as described above.
