/** Intrusive singly-linked list: a chain of nodes joined by their `next` fields
    and ended by null. A slot is a place that stores a node reference: either a
    variable heading a chain or some node's `next` field. */
module SList {
  import opened Sequences

  /** The link embedded in a list entry. */
  class Node {
    var next: Node?

    constructor ()
      ensures next == null
    {
      next := null;
    }
  }

  /** A variable (or a record field) of pointer-to-node type that heads a chain,
      such as a list variable or the head field of a queue. */
  class Head {
    var first: Node?

    constructor (first: Node?)
      ensures this.first == first
    {
      this.first := first;
    }
  }

  /** Where a node reference is stored: a head variable or a node's `next` field. */
  datatype Slot = HeadSlot(cell: Head) | NextSlot(node: Node) {
    /** The object whose field this slot is. */
    function Owner(): (r: object) {
      match this
      case HeadSlot(c) => c
      case NextSlot(n) => n
    }
  }

  /** The reference currently stored in a slot (`*at`). */
  function Get(at: Slot): (r: Node?)
    reads at.Owner()
  {
    match at
    case HeadSlot(c) => c.first
    case NextSlot(n) => n.next
  }

  /** Writes a reference into a slot (`*at = v`). */
  method Store(at: Slot, v: Node?)
    modifies at.Owner()
    ensures Get(at) == v
  {
    match at
    case HeadSlot(c) => c.first := v;
    case NextSlot(n) => n.next := v;
  }

  /** `first` is the start of a null-terminated chain whose nodes, in order, are `s`. */
  ghost predicate Linked(first: Node?, s: seq<Node>)
    reads s
    decreases |s|
  {
    if s == [] then first == null else first == s[0] && Linked(s[0].next, s[1..])
  }

  /** The same chain described node by node: each node's `next` is its successor
      in `s`, and the last one's is null. */
  ghost predicate Chain(first: Node?, s: seq<Node>)
    reads s
  {
    (if s == [] then first == null else first == s[0]) &&
    (forall i | 0 <= i < |s| - 1 :: s[i].next == s[i + 1]) &&
    (s != [] ==> s[|s| - 1].next == null)
  }

  /** A chain read node by node. */
  lemma {:induction false} LinkedChain(first: Node?, s: seq<Node>)
    requires Linked(first, s)
    ensures Chain(first, s)
    decreases |s|
  {
    if s != [] {
      LinkedChain(s[0].next, s[1..]);
      forall i | 0 <= i < |s| - 1
        ensures s[i].next == s[i + 1]
      {
        if i > 0 {
          assert s[1..][i - 1].next == s[1..][i];
        }
      }
    }
  }

  /** A chain rebuilt from its node-by-node description. */
  lemma {:induction false} ChainLinked(first: Node?, s: seq<Node>)
    requires Chain(first, s)
    ensures Linked(first, s)
    decreases |s|
  {
    if s != [] {
      assert |s| > 1 ==> s[0].next == s[1];
      forall i | 0 <= i < |s| - 2
        ensures s[1..][i].next == s[1..][i + 1]
      {
        assert s[i + 1].next == s[i + 2];
      }
      ChainLinked(s[0].next, s[1..]);
    }
  }

  /** The slot at position `k` of the chain rooted at `root`: `root` itself for
      `k == 0`, otherwise the `next` field of the `k`-th node. */
  function SlotAt(root: Slot, s: seq<Node>, k: nat): (r: Slot)
    requires k <= |s|
  {
    if k == 0 then root else NextSlot(s[k - 1])
  }

  /** A null-terminated chain is acyclic: no node occurs on it twice. */
  lemma {:induction false} LinkedDistinct(first: Node?, s: seq<Node>, i: nat, j: nat)
    requires Chain(first, s) && i < j < |s|
    ensures s[i] != s[j]
    decreases |s| - j
  {
    assert s[i].next == s[i + 1];
    if j + 1 < |s| {
      assert s[j].next == s[j + 1];
      LinkedDistinct(first, s, i + 1, j + 1);
    } else {
      assert s[j].next == null;
    }
  }

  /** The `k`-th node of a chain occurs nowhere else on it. */
  lemma OnlyAt(first: Node?, s: seq<Node>, k: nat)
    requires Linked(first, s) && k < |s|
    ensures forall i | 0 <= i < |s| && i != k :: s[i] != s[k]
  {
    LinkedChain(first, s);
    forall i | 0 <= i < |s| && i != k
      ensures s[i] != s[k]
    {
      if i < k {
        LinkedDistinct(first, s, i, k);
      } else {
        LinkedDistinct(first, s, k, i);
      }
    }
  }

  /** The nodes of `s` are pairwise distinct. */
  ghost predicate Distinct(s: seq<Node>)
  {
    forall i, j | 0 <= i < j < |s| :: s[i] != s[j]
  }

  /** All nodes of a chain are distinct. */
  lemma AllDistinct(first: Node?, s: seq<Node>)
    requires Linked(first, s)
    ensures Distinct(s)
  {
    LinkedChain(first, s);
    forall i, j | 0 <= i < j < |s|
      ensures s[i] != s[j]
    {
      LinkedDistinct(first, s, i, j);
    }
  }

  /** A chain determines its abstract sequence: the ghost view is a function of the heap. */
  lemma {:induction false} LinkedUnique(first: Node?, s: seq<Node>, t: seq<Node>)
    requires Linked(first, s) && Linked(first, t)
    ensures s == t
    decreases |s|
  {
    if s != [] && t != [] {
      LinkedUnique(s[0].next, s[1..], t[1..]);
    }
  }

  /** The node whose `next` field roots a chain is not itself on that chain. */
  lemma RootOutside(root: Slot, s: seq<Node>)
    requires Linked(Get(root), s)
    ensures root.NextSlot? ==> root.node !in s
  {
    LinkedChain(Get(root), s);
    if root.NextSlot? {
      forall j | 0 <= j < |s|
        ensures s[j] != root.node
      {
        if j + 1 < |s| {
          assert s[j].next == s[j + 1];
          LinkedDistinct(Get(root), s, 0, j + 1);
        } else {
          assert s[j].next == null;
        }
      }
    }
  }

  /** The slot at position `k` holds the `k`-th node, or null at the end of the chain. */
  lemma SlotAtHolds(root: Slot, s: seq<Node>, k: nat)
    requires Linked(Get(root), s) && k <= |s|
    ensures Get(SlotAt(root, s, k)) == if k < |s| then s[k] else null
  {
    LinkedChain(Get(root), s);
    if 0 < k < |s| {
      assert s[k - 1].next == s[k];
    }
  }

  /** Linking `nw` in at position `k` of a chain: when every other link is as
      before, the predecessor (or the root) points to `nw` and `nw` to the former
      `k`-th node, the chain gains `nw` at position `k`. */
  lemma SpliceChain(first: Node?, nw: Node, s: seq<Node>, k: nat)
    requires k <= |s|
    requires forall i | 0 <= i < |s| - 1 && i != k - 1 :: s[i].next == s[i + 1]
    requires k < |s| ==> s[|s| - 1].next == null
    requires k > 0 ==> s[k - 1].next == nw
    requires nw.next == if k < |s| then s[k] else null
    requires first == if k > 0 then s[0] else nw
    ensures Linked(first, s[..k] + [nw] + s[k..])
  {
    ghost var t := s[..k] + [nw] + s[k..];
    forall i | 0 <= i < |t| - 1
      ensures t[i].next == t[i + 1]
    {
      if i < k - 1 {
        assert t[i] == s[i] && t[i + 1] == s[i + 1];
      } else if i > k {
        assert t[i] == s[i - 1] && t[i + 1] == s[i];
      }
    }
    if k < |s| {
      assert t[|t| - 1] == s[|s| - 1];
    }
    ChainLinked(first, t);
  }

  /** Unlinking the `k`-th node of a chain: when every other link is as before and
      the predecessor (or the root) points past the node, the chain loses exactly
      that node. */
  lemma UnlinkChain(first: Node?, s: seq<Node>, k: nat)
    requires k < |s|
    requires forall i | 0 <= i < |s| - 1 && i != k - 1 && i != k :: s[i].next == s[i + 1]
    requires k < |s| - 1 ==> s[|s| - 1].next == null
    requires k > 0 ==> s[k - 1].next == if k + 1 < |s| then s[k + 1] else null
    requires first == if k > 0 then s[0] else if k + 1 < |s| then s[k + 1] else null
    ensures Linked(first, Without(s, k))
  {
    ghost var t := Without(s, k);
    forall i | 0 <= i < |t| - 1
      ensures t[i].next == t[i + 1]
    {
      if i < k - 1 {
        assert t[i] == s[i] && t[i + 1] == s[i + 1];
      } else if i == k - 1 {
        assert t[i] == s[k - 1] && t[i + 1] == s[k + 1];
      } else {
        assert t[i] == s[i + 1] && t[i + 1] == s[i + 2];
      }
    }
    if k < |s| - 1 {
      assert t[|t| - 1] == s[|s| - 1];
    }
    ChainLinked(first, t);
  }

  /** genc_slist_find_entry: the first node, from `start` on and including it,
      that satisfies `pred`; null when no node of the chain does. */
  method FindEntry(start: Node?, pred: Node -> bool, ghost s: seq<Node>) returns (r: Node?)
    requires Linked(start, s)
    ensures r == if FirstMatch(s, pred) < |s| then s[FirstMatch(s, pred)] else null
  {
    LinkedChain(start, s);
    r := start;
    ghost var i := 0;
    while r != null && !pred(r)
      invariant i <= |s|
      invariant r == if i < |s| then s[i] else null
      invariant forall j | 0 <= j < i :: !pred(s[j])
      decreases |s| - i
    {
      r := r.next;
      i := i + 1;
    }
    FirstMatchUnique(s, pred, i);
  }

  /** genc_slist_find_entry_ref: the slot holding the first node that satisfies
      `pred`, or, when none does, the slot at the end of the chain, which holds null. */
  method FindEntryRef(start: Slot, pred: Node -> bool, ghost s: seq<Node>) returns (r: Slot)
    requires Linked(Get(start), s)
    ensures r == SlotAt(start, s, FirstMatch(s, pred))
    ensures Get(r) == if FirstMatch(s, pred) < |s| then s[FirstMatch(s, pred)] else null
  {
    LinkedChain(Get(start), s);
    r := start;
    ghost var i := 0;
    while Get(r) != null && !pred(Get(r))
      invariant i <= |s| && r == SlotAt(start, s, i)
      invariant Get(r) == if i < |s| then s[i] else null
      invariant forall j | 0 <= j < i :: !pred(s[j])
      decreases |s| - i
    {
      r := NextSlot(Get(r));
      i := i + 1;
    }
    FirstMatchUnique(s, pred, i);
  }

  /** genc_slist_insert_at: stores `nw` in `at` and links the previous occupant of
      `at` behind it. The chain rooted at `root` gains `nw` at position `k` and is
      otherwise unchanged. Returns the new node's `next` slot, which now holds
      what `at` held before. */
  method InsertAt(nw: Node, at: Slot, ghost root: Slot, ghost s: seq<Node>, ghost k: nat)
    returns (r: Slot)
    requires Linked(Get(root), s) && k <= |s| && at == SlotAt(root, s, k)
    requires nw !in s && root != NextSlot(nw)
    modifies at.Owner(), nw
    ensures r == NextSlot(nw)
    ensures Get(at) == nw && nw.next == old(Get(at))
    ensures Linked(Get(root), s[..k] + [nw] + s[k..])
  {
    LinkedChain(Get(root), s);
    RootOutside(root, s);
    SlotAtHolds(root, s, k);
    if k > 0 {
      OnlyAt(Get(root), s, k - 1);
    }
    nw.next := Get(at);
    Store(at, nw);
    r := NextSlot(nw);
    forall i | 0 <= i < |s| - 1 && i != k - 1
      ensures s[i].next == s[i + 1]
    {
      assert old(s[i].next) == s[i + 1];
    }
    if k < |s| {
      assert old(s[|s| - 1].next) == null;
    }
    SpliceChain(Get(root), nw, s, k);
  }

  /** genc_slist_insert_after: the same as inserting at `after`'s `next` slot, so
      `nw` immediately follows `after`. */
  method InsertAfter(nw: Node, after: Node, ghost root: Slot, ghost s: seq<Node>, ghost k: nat)
    requires Linked(Get(root), s) && k <= |s| && NextSlot(after) == SlotAt(root, s, k)
    requires nw !in s && root != NextSlot(nw)
    modifies after, nw
    ensures after.next == nw && nw.next == old(after.next)
    ensures Linked(Get(root), s[..k] + [nw] + s[k..])
  {
    var _ := InsertAt(nw, NextSlot(after), root, s, k);
  }

  /** genc_slist_remove_at: an empty slot yields null and nothing changes;
      otherwise the node in `at` is unlinked and returned with `next` nulled, `at`
      takes over its successor and the rest of the chain stays as it was. */
  method RemoveAt(at: Slot, ghost root: Slot, ghost s: seq<Node>, ghost k: nat) returns (r: Node?)
    requires Linked(Get(root), s) && k <= |s| && at == SlotAt(root, s, k)
    modifies at.Owner(), Get(at)
    ensures r == null <==> k == |s|
    ensures r == null ==> unchanged(at.Owner())
    ensures r != null ==> r == s[k] && r.next == null && Get(at) == old(s[k].next)
    ensures Linked(Get(root), Without(s, k))
  {
    LinkedChain(Get(root), s);
    RootOutside(root, s);
    SlotAtHolds(root, s, k);
    if k < |s| {
      OnlyAt(Get(root), s, k);
    }
    if 0 < k {
      OnlyAt(Get(root), s, k - 1);
    }
    r := Get(at);
    if r != null {
      Store(at, r.next);
      r.next := null;
      forall i | 0 <= i < |s| - 1 && i != k - 1 && i != k
        ensures s[i].next == s[i + 1]
      {
        assert old(s[i].next) == s[i + 1];
      }
      if k < |s| - 1 {
        assert old(s[|s| - 1].next) == null;
      }
      UnlinkChain(Get(root), s, k);
    }
  }

  /** genc_slist_remove_after: removes and returns the node following `after`, or
      returns null when `after` is the last node. */
  method RemoveAfter(after: Node, ghost root: Slot, ghost s: seq<Node>, ghost k: nat)
    returns (r: Node?)
    requires Linked(Get(root), s) && k <= |s| && NextSlot(after) == SlotAt(root, s, k)
    modifies after, after.next
    ensures r == if k < |s| then s[k] else null
    ensures r == null ==> unchanged(after)
    ensures r != null ==> r.next == null && after.next == old(s[k].next)
    ensures Linked(Get(root), Without(s, k))
  {
    r := RemoveAt(NextSlot(after), root, s, k);
  }

  /** The loop of genc_slist_for_each, starting at node `start`. The loop body is
      represented by `stop`: it leaves the loop right after it has handled a node
      for which `stop` holds. The nodes visited are a prefix of the chain, in order,
      and the list is not changed. */
  method ForEach(start: Node?, stop: Node -> bool, ghost s: seq<Node>) returns (visited: seq<Node>)
    requires Linked(start, s)
    ensures visited == s[..Visited(s, stop)]
  {
    LinkedChain(start, s);
    visited := [];
    var cur := start;
    while cur != null
      invariant |visited| <= |s| && visited == s[..|visited|]
      invariant cur == if |visited| < |s| then s[|visited|] else null
      invariant forall j | 0 <= j < |visited| :: !stop(s[j])
      decreases |s| - |visited|
    {
      visited := visited + [cur];
      if stop(cur) {
        FirstMatchUnique(s, stop, |visited| - 1);
        return;
      }
      cur := cur.next;
    }
    FirstMatchUnique(s, stop, |s|);
  }

  /** The loop of genc_slist_for_each_remove: every round removes the node held by
      the fixed slot `at` and hands it to the body, until the slot holds null. The
      body is represented by `stop` as for ForEach. Returns the number of rounds:
      whether the loop runs to the end or is left early, the nodes removed are the
      first `n` of the chain held by `at`, the ones the body was given, and the
      nodes not yet removed stay linked, in order, from `at`. The slot itself is
      not moved, so whatever precedes it is untouched. */
  method ForEachRemove(at: Slot, stop: Node -> bool, ghost s: seq<Node>) returns (n: nat)
    requires Linked(Get(at), s)
    modifies at.Owner(), s
    ensures n == Visited(s, stop)
    ensures Linked(Get(at), s[n..])
  {
    n := 0;
    while true
      invariant n <= |s| && Linked(Get(at), s[n..])
      invariant n <= FirstMatch(s, stop)
      decreases |s| - n
    {
      var e := RemoveAt(at, at, s[n..], 0);
      if e == null {
        FirstMatchUnique(s, stop, |s|);
        return;
      }
      DropFront(s, n);
      n := n + 1;
      if stop(e) {
        FirstMatchUnique(s, stop, n - 1);
        return;
      }
      FirstMatchPast(s, stop, n - 1);
    }
  }
}
