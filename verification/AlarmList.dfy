/** The intrusive circular doubly linked list of alarms.  An alarm starts with its links,
    and the list head is used through the same links. */
module AlarmList {
  import opened AlarmTime

  class Alarm {
    var next: Alarm?
    var previous: Alarm?
    var due: Due

    /** A statically allocated entry: no links yet. */
    constructor ()
      ensures next == null && previous == null
    {
      next, previous, due := null, null, Due(0, false);
    }

    /** ALT_LLIST_HEAD: an empty list. */
    constructor Head()
      ensures next == this && previous == this
    {
      next, previous, due := this, this, Due(0, false);
    }
  }

  /** Position `i` of the circle: the head, the nodes, the head again. */
  ghost function At(head: Alarm, nodes: seq<Alarm>, i: nat): Alarm {
    if 1 <= i <= |nodes| then nodes[i - 1] else head
  }

  ghost predicate Distinct(head: Alarm, nodes: seq<Alarm>) {
    head !in nodes && forall i, j :: 0 <= i < j < |nodes| ==> nodes[i] != nodes[j]
  }

  /** `head` heads a well-formed circle through exactly `nodes`, in that order. */
  ghost predicate Linked(head: Alarm, nodes: seq<Alarm>)
    reads head`next, head`previous, nodes`next, nodes`previous
  {
    && Distinct(head, nodes)
    && forall i :: 0 <= i <= |nodes| ==>
         At(head, nodes, i).next == At(head, nodes, i + 1) && At(head, nodes, i + 1).previous == At(head, nodes, i)
  }

  ghost predicate Unlinked(a: Alarm)
    reads a`next, a`previous
  {
    (a.next == null && a.previous == null) || (a.next == a && a.previous == a)
  }

  ghost function Without(nodes: seq<Alarm>, k: nat): seq<Alarm>
    requires k < |nodes|
  {
    nodes[..k] + nodes[k + 1..]
  }

  /** alt_llist_insert: the entry becomes the first one. */
  method Insert(head: Alarm, entry: Alarm, ghost nodes: seq<Alarm>)
    requires Linked(head, nodes) && entry != head && entry !in nodes
    modifies head`next, entry`next, entry`previous, At(head, nodes, 1)`previous
    ensures Linked(head, [entry] + nodes)
  {
    assert head == At(head, nodes, 0);
    assert head.next == At(head, nodes, 1);
    entry.previous := head;
    entry.next := head.next;
    head.next.previous := entry;
    head.next := entry;
    ghost var longer := [entry] + nodes;
    forall i | 0 <= i <= |longer|
      ensures At(head, longer, i).next == At(head, longer, i + 1)
      ensures At(head, longer, i + 1).previous == At(head, longer, i)
    {
      if i > 0 {
        assert At(head, longer, i + 1) == At(head, nodes, i);
        assert i > 1 ==> At(head, longer, i) == At(head, nodes, i - 1);
      }
    }
  }

  lemma AtMember(head: Alarm, nodes: seq<Alarm>, i: nat)
    ensures At(head, nodes, i) == head || At(head, nodes, i) in nodes
  {
  }

  lemma AtWithout(head: Alarm, nodes: seq<Alarm>, k: nat, i: nat)
    requires k < |nodes|
    ensures At(head, Without(nodes, k), i) == if i <= k then At(head, nodes, i) else At(head, nodes, i + 1)
  {
  }

  lemma DistinctPositions(head: Alarm, nodes: seq<Alarm>, i: nat, j: nat)
    requires Distinct(head, nodes) && i <= |nodes| && j <= |nodes|
    ensures At(head, nodes, i) == At(head, nodes, j) <==> i == j
  {
  }

  /** `entry` is the k-th node of the list, or in no list but its own. */
  ghost predicate Removable(entry: Alarm, head: Alarm, nodes: seq<Alarm>, k: nat)
    reads entry
  {
    || (k < |nodes| && nodes[k] == entry)
    || (entry !in nodes && entry != head && entry.next == entry && entry.previous == entry)
  }

  lemma PositionsApart(head: Alarm, nodes: seq<Alarm>, k: nat)
    requires Distinct(head, nodes) && k <= |nodes| + 1
    ensures forall i :: 0 <= i <= |nodes| + 1 && At(head, nodes, i) == At(head, nodes, k) ==>
              i == k || (i in {0, |nodes| + 1} && k in {0, |nodes| + 1})
  {
  }

  /** alt_llist_remove: the entry's neighbours are linked to each other and the entry to
      itself, so that removing it again changes nothing. */
  method Remove(entry: Alarm, ghost head: Alarm, ghost nodes: seq<Alarm>, ghost k: nat)
    requires Linked(head, nodes) && Removable(entry, head, nodes, k)
    modifies entry`next, entry`previous, At(head, nodes, k)`next, At(head, nodes, k + 2)`previous
    ensures Linked(head, if entry in nodes then Without(nodes, k) else nodes)
    ensures entry.next == entry && entry.previous == entry
    ensures entry !in nodes
            ==> forall a :: a in [head] + nodes ==> a.next == old(a.next) && a.previous == old(a.previous)
  {
    if entry in nodes {
      assert entry == At(head, nodes, k + 1);
      assert entry.previous == At(head, nodes, k) && entry.next == At(head, nodes, k + 2);
      PositionsApart(head, nodes, k);
      PositionsApart(head, nodes, k + 1);
      PositionsApart(head, nodes, k + 2);
    }
    entry.next.previous := entry.previous;
    entry.previous.next := entry.next;
    entry.previous := entry;
    entry.next := entry;
    if entry in nodes {
      ghost var shorter := Without(nodes, k);
      forall i | 0 <= i <= |shorter|
        ensures At(head, shorter, i).next == At(head, shorter, i + 1)
        ensures At(head, shorter, i + 1).previous == At(head, shorter, i)
      {
        AtWithout(head, nodes, k, i);
        AtWithout(head, nodes, k, i + 1);
      }
    }
  }

  // A list none of whose members is touched stays what it was: operations on one list
  // leave every disjoint list alone.
  twostate lemma Untouched(head: Alarm, nodes: seq<Alarm>)
    requires old(Linked(head, nodes))
    requires forall a :: a in [head] + nodes ==> a.next == old(a.next) && a.previous == old(a.previous)
    ensures Linked(head, nodes)
  {
    forall i: nat
      ensures At(head, nodes, i) in [head] + nodes
    {
    }
  }
}
