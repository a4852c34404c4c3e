/** Circular doubly linked lists threaded through the elements themselves. */
module Lists {

  /** A list head, or the link inside an element; id tells the element a link belongs to. */
  class ListHead {
    const id: nat
    var next: ListHead?
    var prev: ListHead?

    constructor (id: nat)
      ensures this.id == id && next == null && prev == null
    {
      this.id := id;
      next, prev := null, null;
    }
  }

  /** r is a whole ring, starting at its head: next leads around it and prev leads back. */
  ghost predicate Ring(r: seq<ListHead>)
    reads r
  {
    && |r| > 0
    && (forall i, j :: 0 <= i < j < |r| ==> r[i] != r[j])
    && (forall i {:trigger r[i].next} :: 0 <= i < |r| - 1 ==> r[i].next == r[i + 1])
    && (forall i {:trigger r[i].prev} :: 1 <= i < |r| ==> r[i].prev == r[i - 1])
    && r[|r| - 1].next == r[0] && r[0].prev == r[|r| - 1]
  }

  method InitListHead(head: ListHead)
    modifies head
    ensures Ring([head])
  {
    head.next := head;
    head.prev := head;
  }

  /** __list_add. */
  method AddBetween(n: ListHead, prev: ListHead, next: ListHead)
    requires n != prev && n != next
    modifies n, prev`next, next`prev
    ensures next.prev == n && n.next == next && n.prev == prev && prev.next == n
  {
    next.prev := n;
    n.next := next;
    n.prev := prev;
    prev.next := n;
  }

  /** list_add: n comes first after the head. */
  method ListAdd(n: ListHead, head: ListHead, ghost r: seq<ListHead>)
    requires Ring(r) && r[0] == head && n !in r
    modifies n, r
    ensures Ring([head, n] + r[1..])
  {
    AddBetween(n, head, head.next);
    ghost var r' := [head, n] + r[1..];
    assert forall i :: 2 <= i < |r'| ==> r'[i] == r[i - 1];
  }

  /** list_add_tail: n comes just before pos, which is at the end of the ring for its head. */
  method ListAddTail(n: ListHead, pos: ListHead, ghost r: seq<ListHead>, ghost k: nat)
    requires Ring(r) && n !in r && k < |r| && r[k] == pos
    modifies n, r
    ensures k > 0 ==> Ring(r[..k] + [n] + r[k..])
    ensures k == 0 ==> Ring(r + [n])
  {
    AddBetween(n, pos.prev, pos);
    ghost var j := if k == 0 then |r| else k;
    ghost var r' := r[..j] + [n] + r[j..];
    assert k == 0 ==> r' == r + [n];
    assert Ring(r');
  }

  /** list_del: the neighbours of an element are linked to each other; its own links stay. */
  method ListDel(entry: ListHead, ghost r: seq<ListHead>, ghost k: nat)
    requires Ring(r) && 0 < k < |r| && r[k] == entry
    modifies r
    ensures Ring(r[..k] + r[k + 1..])
  {
    var prev, next := entry.prev, entry.next;
    next.prev := prev;
    prev.next := next;
  }

  method ListEmpty(head: ListHead, ghost r: seq<ListHead>) returns (empty: bool)
    requires Ring(r) && r[0] == head
    ensures empty <==> |r| == 1
  {
    empty := head.next == head;
  }

  /** list_splice: the elements of the first ring go right behind the head of the second. */
  method ListSplice(list: ListHead, head: ListHead, ghost r: seq<ListHead>, ghost s: seq<ListHead>)
    requires Ring(r) && r[0] == list && Ring(s) && s[0] == head
    requires forall i, j :: 0 <= i < |r| && 0 <= j < |s| ==> r[i] != s[j]
    modifies r, s
    ensures Ring([head] + r[1..] + s[1..])
  {
    var first := list.next;
    ghost var t := [head] + r[1..] + s[1..];
    if first != list {
      var last := list.prev;
      var at := head.next;
      first.prev := head;
      head.next := first;
      last.next := at;
      at.prev := last;
    } else {
      assert t == s;
    }
  }
}
