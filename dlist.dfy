/** Circular doubly-linked list: every entry and the list head are the same kind of
    node, with `next` and `prev` fields. The head is a sentinel; following `next`
    from it visits the entries in order and comes back to it, and `prev` leads the
    other way. An empty list is a head whose fields point at itself. */
module DList {
  import opened Sequences

  /** The link embedded in a list entry, also used as the list head. */
  class DNode {
    var next: DNode?
    var prev: DNode?

    constructor ()
      ensures next == null && prev == null
    {
      next := null;
      prev := null;
    }
  }

  /** The ring of head `h` holding the entries `s`, read forward from the head
      back to the head. */
  function Cycle(h: DNode, s: seq<DNode>): (r: seq<DNode>)
  {
    [h] + s + [h]
  }

  /** The ring read from the head after an insertion at position `p`. */
  lemma CycleSplice(h: DNode, s: seq<DNode>, nw: DNode, p: nat)
    requires p <= |s|
    ensures Cycle(h, s[..p] + [nw] + s[p..]) == Cycle(h, s)[..p + 1] + [nw] + Cycle(h, s)[p + 1..]
  {
    assert Cycle(h, s)[..p + 1] == [h] + s[..p];
    assert Cycle(h, s)[p + 1..] == s[p..] + [h];
  }

  /** The ring read from the head after the entry at position `k` is taken out. */
  lemma CycleWithout(h: DNode, s: seq<DNode>, k: nat)
    requires k < |s|
    ensures Cycle(h, Without(s, k)) == Cycle(h, s)[..k + 1] + Cycle(h, s)[k + 2..]
  {
    assert Cycle(h, s)[..k + 1] == [h] + s[..k];
    assert Cycle(h, s)[k + 2..] == s[k + 1..] + [h];
  }

  /** Consecutive nodes of `c` are joined both ways. */
  ghost predicate Links(c: seq<DNode>)
    reads c
    decreases |c|
  {
    |c| < 2 || (c[0].next == c[1] && c[1].prev == c[0] && Links(c[1..]))
  }

  /** The same as Links, stated pair by pair. */
  ghost predicate Pairs(c: seq<DNode>)
    reads c
  {
    forall i | 0 <= i < |c| - 1 :: c[i].next == c[i + 1] && c[i + 1].prev == c[i]
  }

  /** The list with head `h` holds exactly the entries `s`, in order. */
  ghost predicate Ring(h: DNode, s: seq<DNode>)
    reads h, s
  {
    h !in s && Links(Cycle(h, s))
  }

  /** Links read pair by pair. */
  lemma {:induction false} LinksPairs(c: seq<DNode>)
    requires Links(c)
    ensures Pairs(c)
    decreases |c|
  {
    if |c| >= 2 {
      LinksPairs(c[1..]);
      forall i | 0 <= i < |c| - 1
        ensures c[i].next == c[i + 1] && c[i + 1].prev == c[i]
      {
        if i > 0 {
          assert c[1..][i - 1] == c[i] && c[1..][i] == c[i + 1];
        }
      }
    }
  }

  /** Links rebuilt from its pairs. */
  lemma {:induction false} PairsLinks(c: seq<DNode>)
    requires Pairs(c)
    ensures Links(c)
    decreases |c|
  {
    if |c| >= 2 {
      forall i | 0 <= i < |c[1..]| - 1
        ensures c[1..][i].next == c[1..][i + 1] && c[1..][i + 1].prev == c[1..][i]
      {
        assert c[1..][i] == c[i + 1] && c[1..][i + 1] == c[i + 2];
      }
      PairsLinks(c[1..]);
    }
  }

  /** Two entries of a ring at different positions are different nodes: following
      `next` from both in step would reach the head from one and not from the other. */
  lemma {:induction false} RingDistinct(h: DNode, s: seq<DNode>, i: nat, j: nat)
    requires Ring(h, s) && i < j < |s|
    ensures s[i] != s[j]
    decreases |s| - j
  {
    var c := Cycle(h, s);
    LinksPairs(c);
    assert c[i + 1].next == c[i + 2] && c[j + 1].next == c[j + 2];
    if j + 1 < |s| {
      RingDistinct(h, s, i + 1, j + 1);
    }
  }

  /** The entries of a ring are pairwise distinct. */
  lemma AllDistinct(h: DNode, s: seq<DNode>)
    requires Ring(h, s)
    ensures forall i, j | 0 <= i < j < |s| :: s[i] != s[j]
  {
    forall i, j | 0 <= i < j < |s|
      ensures s[i] != s[j]
    {
      RingDistinct(h, s, i, j);
    }
  }

  /** Read from the head, the ring meets no node twice before it is back at the
      head: the node at position `p` of `[h] + s` occurs there only. */
  lemma FromHeadOnlyAt(h: DNode, s: seq<DNode>, p: nat)
    requires Ring(h, s) && p <= |s|
    ensures forall i | 0 <= i <= |s| && i != p :: Cycle(h, s)[i] != Cycle(h, s)[p]
  {
    forall i | 0 <= i <= |s| && i != p
      ensures Cycle(h, s)[i] != Cycle(h, s)[p]
    {
      if 0 < i < p {
        RingDistinct(h, s, i - 1, p - 1);
      } else if 0 < p < i {
        RingDistinct(h, s, p - 1, i - 1);
      }
    }
  }

  /** The same for the nodes of `s + [h]`, the ring read up to the head. */
  lemma ToHeadOnlyAt(h: DNode, s: seq<DNode>, q: nat)
    requires Ring(h, s) && 0 < q <= |s| + 1
    ensures forall i | 0 < i <= |s| + 1 && i != q :: Cycle(h, s)[i] != Cycle(h, s)[q]
  {
    forall i | 0 < i <= |s| + 1 && i != q
      ensures Cycle(h, s)[i] != Cycle(h, s)[q]
    {
      if i < q <= |s| {
        RingDistinct(h, s, i - 1, q - 1);
      } else if q < i <= |s| {
        RingDistinct(h, s, q - 1, i - 1);
      }
    }
  }

  /** Ring consistency: every node of the ring, the head included, is the `prev`
      of its `next` and the `next` of its `prev`. */
  lemma RingConsistent(h: DNode, s: seq<DNode>)
    requires Ring(h, s)
    ensures h.next != null && h.next.prev == h && h.prev != null && h.prev.next == h
    ensures forall i | 0 <= i < |s| ::
      s[i].next != null && s[i].next.prev == s[i] && s[i].prev != null && s[i].prev.next == s[i]
  {
    var c := Cycle(h, s);
    LinksPairs(c);
    assert c[0].next == c[1] && c[|c| - 2].next == c[|c| - 1];
    forall i | 0 <= i < |s|
      ensures s[i].next != null && s[i].next.prev == s[i] && s[i].prev != null && s[i].prev.next == s[i]
    {
      assert c[i].next == c[i + 1] && c[i + 1].next == c[i + 2];
    }
  }

  /** Linking `nw` in between `c[p]` and `c[p + 1]`: when every other consecutive
      pair of `c` is joined and `nw` is joined to both neighbours, the sequence with
      `nw` in that place is joined throughout. */
  lemma LinksSplice(c: seq<DNode>, nw: DNode, p: nat)
    requires p < |c| - 1
    requires forall i | 0 <= i < |c| - 1 && i != p :: c[i].next == c[i + 1] && c[i + 1].prev == c[i]
    requires c[p].next == nw && nw.prev == c[p] && nw.next == c[p + 1] && c[p + 1].prev == nw
    ensures Links(c[..p + 1] + [nw] + c[p + 1..])
  {
    var t := c[..p + 1] + [nw] + c[p + 1..];
    forall i | 0 <= i < |t| - 1
      ensures t[i].next == t[i + 1] && t[i + 1].prev == t[i]
    {
      if i < p {
        assert t[i] == c[i] && t[i + 1] == c[i + 1];
      } else if i > p + 1 {
        assert t[i] == c[i - 1] && t[i + 1] == c[i];
      }
    }
    PairsLinks(t);
  }

  /** Unlinking `c[p]`: when every consecutive pair of `c` not touching it is joined
      and its two neighbours are joined to each other, the sequence without it is
      joined throughout. */
  lemma LinksUnlink(c: seq<DNode>, p: nat)
    requires 0 < p < |c| - 1
    requires forall i | 0 <= i < |c| - 1 && i != p - 1 && i != p :: c[i].next == c[i + 1] && c[i + 1].prev == c[i]
    requires c[p - 1].next == c[p + 1] && c[p + 1].prev == c[p - 1]
    ensures Links(c[..p] + c[p + 1..])
  {
    var t := c[..p] + c[p + 1..];
    forall i | 0 <= i < |t| - 1
      ensures t[i].next == t[i + 1] && t[i + 1].prev == t[i]
    {
      if i < p - 1 {
        assert t[i] == c[i] && t[i + 1] == c[i + 1];
      } else if i == p - 1 {
        assert t[i] == c[p - 1] && t[i + 1] == c[p + 1];
      } else {
        assert t[i] == c[i + 1] && t[i + 1] == c[i + 2];
      }
    }
    PairsLinks(t);
  }

  /** Linking `nw` in between the nodes at positions `p` and `p + 1` of the ring
      read from the head: when every other pair is joined as before and `nw` is
      joined to both neighbours, the list gains `nw` at position `p`. */
  lemma RingSplice(h: DNode, s: seq<DNode>, nw: DNode, p: nat)
    requires h !in s && nw != h && p <= |s|
    requires forall i | 0 <= i <= |s| && i != p ::
      Cycle(h, s)[i].next == Cycle(h, s)[i + 1] && Cycle(h, s)[i + 1].prev == Cycle(h, s)[i]
    requires Cycle(h, s)[p].next == nw && nw.prev == Cycle(h, s)[p]
    requires nw.next == Cycle(h, s)[p + 1] && Cycle(h, s)[p + 1].prev == nw
    ensures Ring(h, s[..p] + [nw] + s[p..])
  {
    LinksSplice(Cycle(h, s), nw, p);
    CycleSplice(h, s, nw, p);
  }

  /** Unlinking the entry at position `k`: when every pair not touching it is
      joined as before and its two neighbours are joined to each other, the list
      loses exactly that entry. */
  lemma RingUnlink(h: DNode, s: seq<DNode>, k: nat)
    requires h !in s && k < |s|
    requires forall i | 0 <= i <= |s| && i != k && i != k + 1 ::
      Cycle(h, s)[i].next == Cycle(h, s)[i + 1] && Cycle(h, s)[i + 1].prev == Cycle(h, s)[i]
    requires Cycle(h, s)[k].next == Cycle(h, s)[k + 2] && Cycle(h, s)[k + 2].prev == Cycle(h, s)[k]
    ensures Ring(h, Without(s, k))
  {
    LinksUnlink(Cycle(h, s), k + 1);
    CycleWithout(h, s, k);
  }

  /** Position 0 is the only one right after the head and position `|s|` the only
      one right before it, so inserting there prepends or appends. */
  lemma HeadEnds(h: DNode, s: seq<DNode>, nw: DNode, j: nat)
    requires Ring(h, s) && j <= |s|
    ensures Cycle(h, s)[j] == h ==> s[..j] + [nw] + s[j..] == [nw] + s
    ensures Cycle(h, s)[j + 1] == h ==> s[..j] + [nw] + s[j..] == s + [nw]
  {
    if 0 < j {
      assert Cycle(h, s)[j] == s[j - 1];
    }
    if j < |s| {
      assert Cycle(h, s)[j + 1] == s[j];
    }
  }

  /** The first entry of a non-empty list sits between the head and the second
      entry, or the head again when it is the only one. */
  lemma FirstEntry(h: DNode, s: seq<DNode>)
    requires Ring(h, s) && s != []
    ensures h.next == s[0] && s[0].prev == h
    ensures s[0].next == if |s| > 1 then s[1] else h
  {
    LinksPairs(Cycle(h, s));
    assert Cycle(h, s)[1] == s[0] && Cycle(h, s)[2] == if |s| > 1 then s[1] else h;
  }

  /** genc_dlist_init: the head points at itself both ways, which makes the list empty. */
  method Init(head: DNode)
    modifies head
    ensures head.next == head && head.prev == head
    ensures Ring(head, [])
  {
    head.next := head;
    head.prev := head;
  }

  /** genc_dlist_is_empty: whether the list holds no entries. The C function returns 1
      for an empty list and 0 otherwise. */
  function IsEmpty(list: DNode, ghost s: seq<DNode>): (r: bool)
    requires Ring(list, s)
    reads list, s
    ensures r <==> s == []
  {
    list.next == list
  }

  /** A freshly initialised list is empty. */
  method InitThenIsEmpty(head: DNode) returns (r: bool)
    modifies head
    ensures r
  {
    Init(head);
    r := IsEmpty(head, []);
  }

  /** genc_dlist_insert_after: links `nw` in right after `after`, the head or an
      entry, so that it takes position `j` of the list. After the head it becomes
      the first entry. */
  method InsertAfter(nw: DNode, after: DNode, ghost h: DNode, ghost s: seq<DNode>, ghost j: nat)
    requires Ring(h, s) && j <= |s| && after == Cycle(h, s)[j]
    requires nw != h && nw !in s
    modifies nw, after, after.next
    ensures after.next == nw && nw.prev == after
    ensures Ring(h, s[..j] + [nw] + s[j..])
    ensures after == h ==> Ring(h, [nw] + s)
  {
    ghost var c := Cycle(h, s);
    LinksPairs(c);
    FromHeadOnlyAt(h, s, j);
    ToHeadOnlyAt(h, s, j + 1);
    HeadEnds(h, s, nw, j);
    assert c[j].next == c[j + 1];
    var n := after.next;
    nw.prev := after;
    nw.next := n;
    n.prev := nw;
    after.next := nw;
    forall i | 0 <= i < |c| - 1 && i != j
      ensures c[i].next == c[i + 1] && c[i + 1].prev == c[i]
    {
      assert old(c[i].next) == c[i + 1] && old(c[i + 1].prev) == c[i];
    }
    RingSplice(h, s, nw, j);
  }

  /** genc_dlist_insert_before: links `nw` in right before `before`, an entry or
      the head, so that it takes position `j` of the list. Before the head it
      becomes the last entry, which is how genccont appends. */
  method InsertBefore(nw: DNode, before: DNode, ghost h: DNode, ghost s: seq<DNode>, ghost j: nat)
    requires Ring(h, s) && j <= |s| && before == Cycle(h, s)[j + 1]
    requires nw != h && nw !in s
    modifies nw, before, before.prev
    ensures nw.next == before && before.prev == nw
    ensures Ring(h, s[..j] + [nw] + s[j..])
    ensures before == h ==> Ring(h, s + [nw])
  {
    ghost var c := Cycle(h, s);
    LinksPairs(c);
    FromHeadOnlyAt(h, s, j);
    ToHeadOnlyAt(h, s, j + 1);
    HeadEnds(h, s, nw, j);
    assert c[j + 1].prev == c[j];
    var p := before.prev;
    nw.next := before;
    nw.prev := p;
    p.next := nw;
    before.prev := nw;
    forall i | 0 <= i < |c| - 1 && i != j
      ensures c[i].next == c[i + 1] && c[i + 1].prev == c[i]
    {
      assert old(c[i].next) == c[i + 1] && old(c[i + 1].prev) == c[i];
    }
    RingSplice(h, s, nw, j);
  }

  /** genc_dlist_remove: unlinks the entry at position `j` by joining its two
      neighbours to each other, and returns it. The other entries keep their order. */
  method Remove(entry: DNode, ghost h: DNode, ghost s: seq<DNode>, ghost j: nat) returns (r: DNode)
    requires Ring(h, s) && j < |s| && entry == s[j]
    modifies entry, entry.prev, entry.next
    ensures r == entry
    ensures Ring(h, Without(s, j))
  {
    ghost var c := Cycle(h, s);
    LinksPairs(c);
    FromHeadOnlyAt(h, s, j);
    ToHeadOnlyAt(h, s, j + 2);
    assert c[j + 1].prev == c[j] && c[j + 1].next == c[j + 2];
    var p := entry.prev;
    var n := entry.next;
    p.next := n;
    n.prev := p;
    r := entry;
    forall i | 0 <= i < |c| - 1 && i != j && i != j + 1
      ensures c[i].next == c[i + 1] && c[i + 1].prev == c[i]
    {
      assert old(c[i].next) == c[i + 1] && old(c[i + 1].prev) == c[i];
    }
    RingUnlink(h, s, j);
  }

  /** The C entry predicate with its `data` argument fixed. */
  function Bound<D>(pred: (DNode, D) -> bool, data: D): (r: DNode -> bool)
  {
    (e: DNode) => pred(e, data)
  }

  /** genc_dlist_find_in_range: tests the entries strictly after `startAfter` and
      strictly before `endBefore`, in order, and returns the first that satisfies
      `pred`, or null when none does. The range is the entries at positions `lo`
      up to but excluding `hi`. */
  method FindInRange<D>(startAfter: DNode, endBefore: DNode, pred: (DNode, D) -> bool, data: D,
                        ghost h: DNode, ghost s: seq<DNode>, ghost lo: nat, ghost hi: nat)
    returns (r: DNode?)
    requires Ring(h, s) && lo <= hi <= |s|
    requires startAfter == Cycle(h, s)[lo] && endBefore == Cycle(h, s)[hi + 1]
    ensures r == if lo + FirstMatch(s[lo..hi], Bound(pred, data)) < hi
                 then s[lo + FirstMatch(s[lo..hi], Bound(pred, data))] else null
  {
    ghost var c := Cycle(h, s);
    LinksPairs(c);
    ToHeadOnlyAt(h, s, hi + 1);
    var e := startAfter.next;
    ghost var i := lo;
    while e != endBefore && !pred(e, data)
      invariant lo <= i <= hi && e == c[i + 1]
      invariant forall m | lo <= m < i :: !pred(s[m], data)
      decreases hi - i
    {
      e := e.next;
      i := i + 1;
    }
    if e == endBefore {
      r := null;
    } else {
      r := e;
    }
    forall m | 0 <= m < i - lo
      ensures !Bound(pred, data)(s[lo..hi][m])
    {
      assert s[lo..hi][m] == s[lo + m];
    }
    FirstMatchUnique(s[lo..hi], Bound(pred, data), i - lo);
  }

  /** With the head as both ends, genc_dlist_find_in_range searches the whole list. */
  method FindInList<D>(h: DNode, pred: (DNode, D) -> bool, data: D, ghost s: seq<DNode>)
    returns (r: DNode?)
    requires Ring(h, s)
    ensures r == if FirstMatch(s, Bound(pred, data)) < |s| then s[FirstMatch(s, Bound(pred, data))] else null
  {
    r := FindInRange(h, h, pred, data, h, s, 0, |s|);
    assert s[0..|s|] == s;
  }

  /** The loop of genc_dlist_for_each_remove: while the list is not empty, every
      round removes the first entry, `list.next`, and hands it to the body, which
      is represented by `stop`: the loop is left right after the body has handled
      an entry for which `stop` holds. Returns the number of rounds: the entries
      removed are the first `n` of the list, and whether the loop runs to the end or
      is left early, the entries not yet removed form a consistent list, in order. */
  method ForEachRemove(list: DNode, stop: DNode -> bool, ghost s: seq<DNode>) returns (n: nat)
    requires Ring(list, s)
    modifies list, s
    ensures n == Visited(s, stop)
    ensures Ring(list, s[n..])
  {
    n := 0;
    while true
      invariant n <= |s| && Ring(list, s[n..])
      invariant n <= FirstMatch(s, stop)
      decreases |s| - n
    {
      if IsEmpty(list, s[n..]) {
        FirstMatchUnique(s, stop, |s|);
        return;
      }
      FirstEntry(list, s[n..]);
      var e := Remove(list.next, list, s[n..], 0);
      DropFront(s, n);
      n := n + 1;
      if stop(e) {
        FirstMatchUnique(s, stop, n - 1);
        return;
      }
      FirstMatchPast(s, stop, n - 1);
    }
  }

  /** Inserting before the head appends and inserting after it prepends: starting
      from an initialised head, appending `a` and `b` and then prepending `c` gives
      the list `c, a, b`. */
  method AppendPrepend(h: DNode, a: DNode, b: DNode, c: DNode)
    requires h != a && h != b && h != c && a != b && b != c && a != c
    modifies h, a, b, c
    ensures Ring(h, [c, a, b])
  {
    Init(h);
    InsertBefore(a, h, h, [], 0);
    assert [] + [a] == [a];
    InsertBefore(b, h, h, [a], 1);
    assert [a] + [b] == [a, b];
    InsertAfter(c, h, h, [a, b], 0);
    assert [c] + [a, b] == [c, a, b];
  }
}
