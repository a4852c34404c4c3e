/** Reservation of virtual address ranges, and the search for a free one. */
module VirtualMap {
  import opened Lists
  import opened FrameRings
  import opened Sets

  /** Addresses have 32 bits. */
  const ADDRESSES: nat := 0x1_0000_0000

  function Wrap(x: nat): nat {
    x % ADDRESSES
  }

  function Bytes(pages: nat): nat {
    pages * 4096
  }

  /** length counts pages. */
  datatype Segment = Segment(base: nat, length: nat, flags: nat, tag: string)

  function End(s: Segment): nat {
    s.base + Bytes(s.length)
  }

  // ---- stand_getNextFreeVirtual ----

  datatype Found = At(address: nat) | WrapPanic

  predicate Conflict(s: Segment, start: nat, pages: nat) {
    var sbase, send, end := s.base, Wrap(End(s)), Wrap(start + Bytes(pages));
    (sbase <= start && start < send) || (sbase <= end && end < send)
  }

  /** The walk over the remaining segments, with the candidate start. */
  function Search(segs: seq<Segment>, start: nat, pages: nat): Found {
    if segs == [] then At(start)
    else
      var send := Wrap(End(segs[0]));
      if send < start || !Conflict(segs[0], start, pages) then Search(segs[1..], start, pages)
      else if Wrap(send + Bytes(pages)) < send then WrapPanic
      else Search(segs[1..], send, pages)
  }

  lemma {:induction false} SearchFrom(segs: seq<Segment>, k: nat, start: nat, pages: nat)
    requires k < |segs|
    ensures Search(segs[k..], start, pages) ==
              var send := Wrap(End(segs[k]));
              if send < start || !Conflict(segs[k], start, pages) then Search(segs[k + 1..], start, pages)
              else if Wrap(send + Bytes(pages)) < send then WrapPanic
              else Search(segs[k + 1..], send, pages)
  {
    assert segs[k..][0] == segs[k] && segs[k..][1..] == segs[k + 1..];
  }

  lemma {:induction false} SearchAll(segs: seq<Segment>, start: nat, pages: nat)
    ensures Search(segs[0..], start, pages) == Search(segs, start, pages)
  {
    assert segs[0..] == segs;
  }

  lemma {:induction false} SearchNone(segs: seq<Segment>, start: nat, pages: nat)
    ensures Search(segs[|segs|..], start, pages) == At(start)
  {
  }

  predicate SortedByBase(segs: seq<Segment>) {
    forall i, j :: 0 <= i < j < |segs| ==> segs[i].base <= segs[j].base
  }

  predicate Overlaps(s: Segment, start: nat, pages: nat) {
    s.base < start + Bytes(pages) && start < End(s)
  }

  /** Entirely behind the start and not beyond the end of the range. */
  predicate StrictlyInside(s: Segment, start: nat, pages: nat) {
    start < s.base && End(s) <= start + Bytes(pages)
  }

  /** A segment that ends where the address space does: its end wraps to 0. */
  predicate AtTop(s: Segment) {
    End(s) == ADDRESSES
  }

  /** The segment ends before the range, begins behind its end, lies inside, or is not seen. */
  ghost predicate Passed(s: Segment, start: nat, pages: nat) {
    End(s) <= start || s.base > start + Bytes(pages) || StrictlyInside(s, start, pages) || AtTop(s)
  }

  /** Where the search goes on after s, if it does not give up. */
  ghost function NextStart(s: Segment, start: nat, pages: nat): nat {
    if Wrap(End(s)) < start || !Conflict(s, start, pages) then start else Wrap(End(s))
  }

  lemma {:induction false} StepPasses(s: Segment, t: Segment, start: nat, pages: nat)
    requires End(s) <= ADDRESSES && start + Bytes(pages) < ADDRESSES
    requires t == s || (t.base <= s.base && Passed(t, start, pages))
    ensures NextStart(s, start, pages) >= start
    ensures NextStart(s, start, pages) == start || NextStart(s, start, pages) == End(s)
    ensures Passed(t, NextStart(s, start, pages), pages)
  {
    assert Wrap(start + Bytes(pages)) == start + Bytes(pages);
    assert Wrap(End(s)) == if AtTop(s) then 0 else End(s);
  }

  lemma {:induction false} SearchPasses(before: seq<Segment>, segs: seq<Segment>, start: nat, pages: nat)
    requires SortedByBase(before + segs)
    requires forall s <- before + segs :: End(s) <= ADDRESSES
    requires start + Bytes(pages) < ADDRESSES
    requires forall s <- before :: Passed(s, start, pages)
    ensures match Search(segs, start, pages)
            case At(r) =>
              && start <= r && r + Bytes(pages) < ADDRESSES
              && (r == start || exists s <- segs :: r == End(s))
              && forall s <- before + segs :: Passed(s, r, pages)
            case WrapPanic => exists s <- segs :: End(s) + Bytes(pages) >= ADDRESSES
    decreases |segs|
  {
    if segs != [] {
      var s, rest := segs[0], segs[1..];
      var all := before + segs;
      assert all == (before + [s]) + rest && all[|before|] == s;
      var next := NextStart(s, start, pages);
      StepPasses(s, s, start, pages);
      if next + Bytes(pages) < ADDRESSES {
        forall t <- before + [s] ensures Passed(t, next, pages) {
          if t in before {
            var i :| 0 <= i < |before| && before[i] == t;
            assert all[i] == t;
          }
          StepPasses(s, t, start, pages);
        }
        assert Wrap(next + Bytes(pages)) == next + Bytes(pages);
        SearchPasses(before + [s], rest, next, pages);
      }
    } else {
      assert before + segs == before;
    }
  }

  /** The address lies in the segment, as far as it is seen: one that ends with the address space
      seems to end at 0. */
  predicate Holds(s: Segment, x: nat) {
    s.base <= x < Wrap(End(s))
  }

  lemma {:induction false} SearchNext(segs: seq<Segment>, start: nat, pages: nat)
    requires segs != [] && End(segs[0]) <= ADDRESSES && start + Bytes(pages) < ADDRESSES
    ensures var next := NextStart(segs[0], start, pages);
            && start <= next
            && (next == start <==> !Holds(segs[0], start) && !Holds(segs[0], start + Bytes(pages)))
            && Search(segs, start, pages) ==
                 if next + Bytes(pages) < ADDRESSES then Search(segs[1..], next, pages) else WrapPanic
  {
    var next := NextStart(segs[0], start, pages);
    assert Wrap(start + Bytes(pages)) == start + Bytes(pages);
    if next + Bytes(pages) < ADDRESSES {
      assert Wrap(next + Bytes(pages)) == next + Bytes(pages);
    }
  }

  /** The start asked for is granted exactly if no segment holds it or the address behind the range. */
  lemma {:induction false} SearchStays(segs: seq<Segment>, start: nat, pages: nat)
    requires forall s <- segs :: End(s) <= ADDRESSES
    requires start + Bytes(pages) < ADDRESSES
    ensures Search(segs, start, pages) == At(start) <==>
              forall s <- segs :: !Holds(s, start) && !Holds(s, start + Bytes(pages))
    ensures Search(segs, start, pages).At? ==> Search(segs, start, pages).address >= start
  {
    if segs != [] {
      hide Search, NextStart, Holds, Bytes;
      var s, rest := segs[0], segs[1..];
      var next := NextStart(s, start, pages);
      assert segs == [s] + rest;
      SearchNext(segs, start, pages);
      if next + Bytes(pages) < ADDRESSES {
        SearchStays(rest, next, pages);
      }
    }
  }

  /** The segment has an address in common with the range or the address behind it. */
  predicate Touches(s: Segment, start: nat, pages: nat) {
    s.base <= start + Bytes(pages) && start < End(s)
  }

  ghost predicate SomeTouches(segs: seq<Segment>, start: nat, pages: nat) {
    exists s <- segs :: Touches(s, start, pages)
  }

  lemma {:induction false} JumpTouches(s: Segment, start: nat, pages: nat, x: nat)
    requires End(s) <= ADDRESSES && start + Bytes(pages) < ADDRESSES
    requires start <= x < NextStart(s, start, pages)
    ensures Touches(s, x, pages)
  {
    assert Wrap(start + Bytes(pages)) == start + Bytes(pages);
    assert Wrap(End(s)) == if AtTop(s) then 0 else End(s);
  }

  /** The search passes over no range that it could have taken: at every address before the one found
      some segment touches the range, and if it gives up, then at every address there is. */
  lemma {:induction false} SearchFirst(segs: seq<Segment>, start: nat, pages: nat, x: nat)
    requires forall s <- segs :: End(s) <= ADDRESSES
    requires start + Bytes(pages) < ADDRESSES
    requires start <= x && x + Bytes(pages) < ADDRESSES
    ensures match Search(segs, start, pages)
            case At(r) => x < r ==> SomeTouches(segs, x, pages)
            case WrapPanic => SomeTouches(segs, x, pages)
  {
    if segs != [] {
      var s, rest := segs[0], segs[1..];
      var next := NextStart(s, start, pages);
      SearchNext(segs, start, pages);
      if x < next {
        JumpTouches(s, start, pages, x);
      } else {
        SearchFirst(rest, next, pages, x);
        assert SomeTouches(rest, x, pages) ==> SomeTouches(segs, x, pages);
      }
    }
  }

  /** The range found starts no earlier than asked, at the start or at the end of a segment. A
      segment overlaps it exactly when it lies strictly inside, or ends with the address space
      and begins below the end of the range. So if all segments are at least as long as the
      request, only one that ends with the address space can overlap. The search gives up only
      when the range behind some segment would leave the address space. */
  lemma {:induction false} SearchCorrect(segs: seq<Segment>, start: nat, pages: nat)
    requires SortedByBase(segs) && forall s <- segs :: s.length > 0 && End(s) <= ADDRESSES
    requires pages > 0 && start + Bytes(pages) < ADDRESSES
    ensures match Search(segs, start, pages)
            case At(r) =>
              && start <= r && r + Bytes(pages) < ADDRESSES
              && (r == start || exists s <- segs :: r == End(s))
              && (forall s <- segs :: Overlaps(s, r, pages) <==>
                    StrictlyInside(s, r, pages) || (AtTop(s) && s.base < r + Bytes(pages)))
              && (forall s <- segs :: s.length >= pages ==> !StrictlyInside(s, r, pages))
            case WrapPanic => exists s <- segs :: End(s) + Bytes(pages) >= ADDRESSES
  {
    assert [] + segs == segs;
    SearchPasses([], segs, start, pages);
  }

  /** A shorter segment inside the range asked for is not noticed. */
  lemma {:induction false} SearchMissesInside()
    ensures var s := Segment(4096, 1, 0, "");
            Search([s], 0, 3) == At(0) && Overlaps(s, 0, 3)
  {
    assert Search([], 0, 3) == At(0);
  }

  /** A segment that ends with the address space is not noticed, whether the range runs into it or
      starts inside; the page directory, reserved before anything else, is such a segment. */
  lemma {:induction false} SearchMissesTop(s: Segment, start: nat, pages: nat)
    requires s.length > 0 && AtTop(s) && pages > 0 && start + Bytes(pages) < ADDRESSES
    ensures Search([s], start, pages) == At(start)
    ensures Overlaps(s, start, pages) <==> s.base < start + Bytes(pages)
  {
    assert Wrap(End(s)) == 0;
    assert Search([s][1..], start, pages) == At(start);
  }

  /** A request that reaches the end of the address space is granted at its start unless a segment
      that does not end before it holds its start or the address its end wraps to; then the
      search gives up. */
  lemma {:induction false} SearchBeyond(segs: seq<Segment>, start: nat, pages: nat)
    requires start < ADDRESSES <= start + Bytes(pages) && Bytes(pages) < ADDRESSES
    requires forall s <- segs :: End(s) <= ADDRESSES
    ensures Search(segs, start, pages) ==
              if exists s <- segs ::
                   Wrap(End(s)) >= start && (Holds(s, start) || Holds(s, Wrap(start + Bytes(pages))))
              then WrapPanic else At(start)
  {
    if segs != [] {
      var s := segs[0];
      SearchBeyond(segs[1..], start, pages);
      assert segs == [s] + segs[1..];
      BehindWraps(Wrap(End(s)), start, pages);
    }
  }

  lemma BehindWraps(send: nat, start: nat, pages: nat)
    requires start < ADDRESSES <= start + Bytes(pages) && Bytes(pages) < ADDRESSES && send < ADDRESSES
    ensures send >= start ==> Wrap(send + Bytes(pages)) < send
  {
    if send >= start {
      assert Wrap(send + Bytes(pages)) == send + Bytes(pages) - ADDRESSES;
    }
  }

  // ---- stand_reserveVirtualRange ----

  predicate Below(order: seq<nat>, n: nat) {
    forall k :: 0 <= k < |order| ==> order[k] < n
  }

  /** order with the new number x put before the first segment whose base is not below its own. */
  function InsertOrdered(segs: seq<Segment>, order: seq<nat>, x: nat): seq<nat>
    requires x < |segs| && Below(order, |segs|)
  {
    if order == [] || segs[x].base <= segs[order[0]].base then [x] + order
    else [order[0]] + InsertOrdered(segs, order[1..], x)
  }

  /** The segments in list order. */
  function InOrder(segs: seq<Segment>, order: seq<nat>): seq<Segment>
    requires Below(order, |segs|)
  {
    seq(|order|, k requires 0 <= k < |order| => segs[order[k]])
  }

  /** Every number below n exactly once. */
  ghost predicate Permutation(order: seq<nat>, n: nat) {
    |order| == n && Below(order, n) && forall i, j :: 0 <= i < j < |order| ==> order[i] != order[j]
  }

  /** x belongs before position k. */
  ghost predicate PlaceOf(segs: seq<Segment>, order: seq<nat>, x: nat, k: nat)
    requires x < |segs| && Below(order, |segs|)
  {
    && k <= |order|
    && (forall i :: 0 <= i < k ==> segs[order[i]].base < segs[x].base)
    && (k < |order| ==> segs[x].base <= segs[order[k]].base)
  }

  lemma {:induction false} InsertOrderedAt(segs: seq<Segment>, order: seq<nat>, x: nat, k: nat)
    requires x < |segs| && Below(order, |segs|) && PlaceOf(segs, order, x, k)
    ensures InsertOrdered(segs, order, x) == order[..k] + [x] + order[k..]
  {
    if k > 0 {
      assert segs[order[0]].base < segs[x].base;
      InsertOrderedAt(segs, order[1..], x, k - 1);
      assert order[..k] == [order[0]] + order[1..][..k - 1] && order[k..] == order[1..][k - 1..];
    }
  }

  lemma {:induction false} FindPlace(segs: seq<Segment>, order: seq<nat>, x: nat) returns (k: nat)
    requires x < |segs| && Below(order, |segs|)
    ensures PlaceOf(segs, order, x, k)
  {
    k := 0;
    while k < |order| && segs[order[k]].base < segs[x].base
      invariant k <= |order| && forall i :: 0 <= i < k ==> segs[order[i]].base < segs[x].base
    {
      k := k + 1;
    }
  }

  lemma {:induction false} SplicePermutation(order: seq<nat>, n: nat, k: nat)
    requires Permutation(order, n) && k <= |order|
    ensures Permutation(order[..k] + [n] + order[k..], n + 1)
  {
    var order' := order[..k] + [n] + order[k..];
    assert forall i :: 0 <= i < |order'| && i != k ==> order'[i] == order[if i < k then i else i - 1];
  }

  lemma {:induction false} SpliceSorted(segs: seq<Segment>, order: seq<nat>, x: nat, k: nat)
    requires x < |segs| && Below(order, |segs|) && PlaceOf(segs, order, x, k)
    requires SortedByBase(InOrder(segs, order)) && Below(order[..k] + [x] + order[k..], |segs|)
    ensures SortedByBase(InOrder(segs, order[..k] + [x] + order[k..]))
  {
    var before := InOrder(segs, order);
    var after := InOrder(segs, order[..k] + [x] + order[k..]);
    assert after == before[..k] + [segs[x]] + before[k..];
    forall i | k <= i < |before| ensures segs[x].base <= before[i].base {
      assert before[k].base <= before[i].base;
    }
  }

  /** The list stays sorted by base, and holds every segment once. */
  lemma {:induction false} InsertKeepsOrder(segs: seq<Segment>, order: seq<nat>, s: Segment)
    requires Permutation(order, |segs|) && SortedByBase(InOrder(segs, order))
    ensures Below(order, |segs + [s]|)
    ensures var order' := InsertOrdered(segs + [s], order, |segs|);
            Permutation(order', |segs| + 1) && SortedByBase(InOrder(segs + [s], order'))
  {
    var segs', x := segs + [s], |segs|;
    var k := FindPlace(segs', order, x);
    InsertOrderedAt(segs', order, x, k);
    SplicePermutation(order, x, k);
    assert InOrder(segs', order) == InOrder(segs, order);
    SpliceSorted(segs', order, x, k);
  }

  datatype Outcome = Reserved | DoubleReservation | Overflow

  class VirtualMemoryMap {
    var segments: seq<Segment>
    var links: seq<ListHead>
    const ordered: ListHead
    ghost var order: seq<nat>

    /** The links of the segments are different objects; those in the given order make the list. */
    ghost predicate Threaded(list: seq<nat>)
      reads this, ordered, links
    {
      && (forall i :: 0 <= i < |links| ==> links[i].id == i && links[i] != ordered)
      && Below(list, |links|) && Ring(RingOf(ordered, links, list))
    }

    ghost predicate Valid()
      reads this, ordered, links
    {
      && |links| == |segments| && Permutation(order, |segments|) && Threaded(order)
      && SortedByBase(InOrder(segments, order))
      && forall i, j :: 0 <= i < j < |segments| ==> segments[i].base != segments[j].base
    }

    constructor ()
      ensures Valid() && segments == []
    {
      segments, links, order := [], [], [];
      ordered := new ListHead(0);
      new;
      InitListHead(ordered);
      assert RingOf(ordered, [], []) == [ordered];
    }

    /** stand_virtualSegmentSortedInsert for the segment x at the end of the array. */
    method SortedInsert(x: nat)
      requires x < |segments| == |links| && Below(order, x) && Threaded(order)
      modifies this`order, ordered, links
      ensures order == InsertOrdered(segments, old(order), x) && Threaded(order)
    {
      ghost var r := RingOf(ordered, links, order);
      var pos := ordered.next;
      ghost var k := 0;
      while pos != ordered
        invariant k <= |order| && pos == r[if k == |order| then 0 else k + 1]
        invariant forall i :: 0 <= i < k ==> segments[order[i]].base < segments[x].base
        decreases |order| - k
      {
        assert pos == r[k + 1] == links[order[k]];
        if segments[x].base <= segments[pos.id].base {
          break;
        }
        k := k + 1;
        pos := pos.next;
      }
      assert pos == ordered ==> k == |order|;
      InsertOrderedAt(segments, order, x, k);
      ghost var order' := order[..k] + [x] + order[k..];
      LinkFresh(x);
      AddTail(x, pos, k, r);
      order := order';
    }

    lemma LinkFresh(x: nat)
      requires x < |links| && Below(order, x) && Threaded(order)
      ensures links[x] !in RingOf(ordered, links, order)
    {
      forall k | 0 <= k < |order| ensures links[order[k]] != links[x] {
        assert links[order[k]].id == order[k];
      }
    }

    method AddTail(x: nat, pos: ListHead, ghost k: nat, ghost r: seq<ListHead>)
      requires x < |links| && k <= |order| && Threaded(order) && r == RingOf(ordered, links, order)
      requires links[x] !in r && pos == r[if k == |order| then 0 else k + 1]
      modifies ordered, links
      ensures Threaded(order[..k] + [x] + order[k..])
    {
      ghost var j := if k == |order| then 0 else k + 1;
      ghost var order' := order[..k] + [x] + order[k..];
      assert j == 0 ==> r + [links[x]] == RingOf(ordered, links, order');
      assert j != 0 ==> r[..j] + [links[x]] + r[j..] == RingOf(ordered, links, order');
      ListAddTail(links[x], pos, r, j);
    }

    /** stand_reserveVirtualRange. A second reservation at the same base panics before anything is
        stored; the limit of 80 is only noticed after the segment has been added. */
    method Reserve(start: nat, len: nat, flags: nat, tag: string) returns (outcome: Outcome)
      requires Valid() && len > 0
      modifies this, ordered, links
      ensures Valid()
      ensures outcome == DoubleReservation <==> exists s <- old(segments) :: s.base == start
      ensures outcome == DoubleReservation ==> segments == old(segments) && order == old(order)
      ensures outcome != DoubleReservation ==>
                && segments == old(segments) + [Segment(start, len, flags, tag)]
                && (outcome == Overflow <==> |segments| > 80)
    {
      hide Permutation, SortedByBase, InsertOrdered;
      var i := 0;
      while i < |segments|
        invariant 0 <= i <= |segments| && forall j :: 0 <= j < i ==> segments[j].base != start
      {
        if segments[i].base == start {
          return DoubleReservation;
        }
        i := i + 1;
      }
      InsertKeepsOrder(segments, order, Segment(start, len, flags, tag));
      Append(Segment(start, len, flags, tag));
      SortedInsert(|segments| - 1);
      outcome := if |segments| > 80 then Overflow else Reserved;
    }

    /** The next entry of the segment array, not in the list yet. */
    method Append(s: Segment)
      requires |links| == |segments| && Threaded(order)
      modifies this`segments, this`links
      ensures segments == old(segments) + [s] && |links| == |segments| && fresh(links[|old(links)|])
      ensures links[..|old(links)|] == old(links) && Threaded(order)
    {
      var link := new ListHead(|segments|);
      ghost var r := RingOf(ordered, links, order);
      links := links + [link];
      segments := segments + [s];
      assert RingOf(ordered, links, order) == r;
    }

    /** stand_getNextFreeVirtual. */
    method GetNextFreeVirtual(from: nat, pages: nat) returns (found: Found)
      requires Valid() && pages > 0
      ensures found == Search(InOrder(segments, order), from, pages)
    {
      hide Search, SortedByBase, Permutation;
      ghost var r := RingOf(ordered, links, order);
      ghost var all := InOrder(segments, order);
      SearchAll(all, from, pages);
      var start: nat := from;
      var end := Wrap(from + Bytes(pages));
      var pos := ordered.next;
      ghost var k := 0;
      while pos != ordered
        invariant k <= |order| && pos == r[if k == |order| then 0 else k + 1]
        invariant end == Wrap(start + Bytes(pages))
        invariant Search(all[k..], start, pages) == Search(all, from, pages)
        decreases |order| - k
      {
        assert pos == r[k + 1] == links[order[k]];
        var segment := segments[pos.id];
        SearchFrom(all, k, start, pages);
        var sbase, send := segment.base, Wrap(End(segment));
        if !(send < start) && ((sbase <= start && start < send) || (sbase <= end && end < send)) {
          start, end := send, Wrap(send + Bytes(pages));
          if end < start {
            return WrapPanic;
          }
        }
        k := k + 1;
        pos := pos.next;
      }
      SearchNone(all, start, pages);
      found := At(start);
    }
  }

  /** In a valid map the ordered list and the array hold the same segments, so what holds of all
      segments in list order holds of all that have been reserved. */
  lemma {:induction false} OrderedSegments(segs: seq<Segment>, order: seq<nat>, s: Segment)
    requires Permutation(order, |segs|)
    ensures s in segs <==> s in InOrder(segs, order)
  {
    if s in segs {
      var i :| 0 <= i < |segs| && segs[i] == s;
      Covers(order, |segs|, i);
      var k :| 0 <= k < |order| && order[k] == i;
      assert InOrder(segs, order)[k] == s;
    }
  }

  /** For the reserved segments themselves, if they are at least as long as the request: the range
      that the search returns overlaps one exactly if that ends with the address space and begins
      below the end of the range. */
  lemma {:induction false} SearchAvoidsReserved(segs: seq<Segment>, order: seq<nat>, start: nat, pages: nat)
    requires Permutation(order, |segs|) && SortedByBase(InOrder(segs, order))
    requires forall s <- segs :: s.length >= pages && End(s) <= ADDRESSES
    requires pages > 0 && start + Bytes(pages) < ADDRESSES
    requires Search(InOrder(segs, order), start, pages).At?
    ensures var r := Search(InOrder(segs, order), start, pages).address;
            start <= r && forall s <- segs :: Overlaps(s, r, pages) <==> AtTop(s) && s.base < r + Bytes(pages)
  {
    var list := InOrder(segs, order);
    SearchCorrect(list, start, pages);
    forall s <- segs ensures s in list {
      OrderedSegments(segs, order, s);
    }
  }

  ghost function Numbers(n: nat): (s: set<nat>)
    ensures |s| == n && forall k: nat :: k in s <==> k < n
  {
    if n == 0 then {} else Numbers(n - 1) + {n - 1}
  }

  ghost function Elements(order: seq<nat>): set<nat> {
    set k <- order
  }

  lemma {:induction false} Covers(order: seq<nat>, n: nat, i: nat)
    requires Permutation(order, n) && i < n
    ensures i in order
  {
    ElementsSize(order);
    assert Elements(order) <= Numbers(n);
    if i !in order {
      SubsetSize(Elements(order), Numbers(n) - {i});
    }
  }

  lemma {:induction false} ElementsSize(order: seq<nat>)
    requires forall i, j :: 0 <= i < j < |order| ==> order[i] != order[j]
    ensures |Elements(order)| == |order|
  {
    if order == [] {
      assert Elements(order) == {};
    } else {
      ElementsSize(order[1..]);
      assert order == [order[0]] + order[1..];
      assert Elements(order) == {order[0]} + Elements(order[1..]);
    }
  }
}
