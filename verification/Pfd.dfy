/** The page frame database: the free, used and bad lists through the array of frames. */
module PageFrames {
  import opened Options
  import opened Lists
  import opened FrameLists
  import opened FrameRings

  /** The zeroed frame array. */
  method MakeFrames(n: nat) returns (frames: seq<ListHead>)
    ensures |frames| == n && forall i :: 0 <= i < n ==> fresh(frames[i]) && frames[i].id == i
  {
    frames := [];
    for i := 0 to n
      invariant |frames| == i && forall j :: 0 <= j < i ==> fresh(frames[j]) && frames[j].id == j
    {
      var frame := new ListHead(i);
      frames := frames + [frame];
    }
  }

  function Index(st: State): nat {
    match st case Free => 0 case Used => 1 case Bad => 2
  }

  function AsSeq(l: FrameLists.Lists): seq<seq<nat>> {
    [l.free, l.used, l.bad]
  }

  class PageFrameDatabase {
    const freeList: ListHead
    const usedList: ListHead
    const badList: ListHead
    const frames: seq<ListHead>
    ghost var lists: FrameLists.Lists

    function Head(st: State): ListHead {
      match st case Free => freeList case Used => usedList case Bad => badList
    }

    ghost function Heads(): seq<ListHead> {
      [freeList, usedList, badList]
    }

    ghost predicate Valid()
      reads this, Heads(), frames
    {
      LinkedAs(Heads(), frames, AsSeq(lists)) && Partition(lists, |frames|)
    }

    /** mm_initPfd: the frames below the highest RAM address, in the state that their segment and
        the mapped pages give them. The segments are the RAM entries of the boot memory map. */
    constructor (segs: seq<Segment>, mapped: seq<nat>)
      requires segs != [] && forall i <- mapped :: i < HighestEnd(segs) / PAGE_SIZE
      ensures Valid() && |frames| == HighestEnd(segs) / PAGE_SIZE
      ensures lists == InitLists(|frames|, segs, mapped)
    {
      var end := FindHighestEnd(segs);
      var fs := MakeFrames(end / PAGE_SIZE);
      freeList := new ListHead(0);
      usedList := new ListHead(0);
      badList := new ListHead(0);
      frames := fs;
      new;
      AllToBad();
      SegmentsBelow(segs);
      FreeSegments(segs);
      LastFourToBad();
      UseMapped(mapped);
    }

    /** Starts the three lists and puts all memory in the bad list. */
    method AllToBad()
      requires Separate(Heads(), frames)
      modifies this`lists, Heads(), frames
      ensures Valid() && lists == FrameLists.Lists([], [], CountDown(|frames|))
    {
      InitHeads();
      var i := 0;
      while i < |frames|
        invariant 0 <= i <= |frames| && lists == FrameLists.Lists([], [], CountDown(i))
        invariant LinkedAs(Heads(), frames, AsSeq(lists))
      {
        PushBad(i);
        i := i + 1;
      }
      AllBad(|frames|);
    }

    method InitHeads()
      requires Separate(Heads(), frames)
      modifies this`lists, Heads(), frames
      ensures lists == FrameLists.Lists([], [], []) && LinkedAs(Heads(), frames, AsSeq(lists))
    {
      assert Heads()[0] == freeList && Heads()[1] == usedList && Heads()[2] == badList;
      InitListHead(badList);
      InitListHead(freeList);
      InitListHead(usedList);
      lists := FrameLists.Lists([], [], []);
      forall j | 0 <= j < 3 ensures Ring(RingOf(Heads()[j], frames, [])) {
        assert RingOf(Heads()[j], frames, []) == [Heads()[j]];
      }
    }

    /** list_add of a frame that is in no list yet. */
    method PushBad(i: nat)
      requires LinkedAs(Heads(), frames, AsSeq(lists)) && i < |frames|
      requires i !in lists.free && i !in lists.used && i !in lists.bad
      modifies this`lists, Heads(), frames
      ensures LinkedAs(Heads(), frames, AsSeq(lists)) && lists == old(lists).(bad := [i] + old(lists).bad)
    {
      ghost var l := lists;
      ghost var l' := l.(bad := [i] + l.bad);
      assert AsSeq(l') == AsSeq(l)[2 := [i] + AsSeq(l)[2]];
      Push(frames[i], badList, Heads(), frames, AsSeq(l), 2);
      lists := l';
    }

    /** Puts the RAM segments in the free list. */
    method FreeSegments(segs: seq<Segment>)
      requires Valid() && forall s <- segs :: Top(s) <= |frames|
      modifies this`lists, Heads(), frames
      ensures Valid() && lists == MoveSegments(old(lists), segs)
    {
      for j := 0 to |segs|
        invariant Valid() && lists == MoveSegments(old(lists), segs[..j])
      {
        assert segs[j] in segs && segs[..j + 1] == segs[..j] + [segs[j]];
        SetRange(Bottom(segs[j]), Top(segs[j]), Free);
      }
      assert segs[..|segs|] == segs;
    }

    method SetRange(lo: nat, hi: nat, st: State)
      requires Valid() && lo <= hi <= |frames|
      modifies this`lists, Heads(), frames
      ensures Valid() && lists == MoveRange(old(lists), lo, hi, st)
    {
      for i := lo to hi
        invariant Valid() && lists == MoveRange(old(lists), lo, i, st)
      {
        SetFrameState(i, st);
      }
    }

    method LastFourToBad()
      requires Valid()
      modifies this`lists, Heads(), frames
      ensures Valid() && lists == WithoutLastFour(old(lists), |frames|)
    {
      if |frames| >= 4 {
        SetRange(|frames| - 4, |frames|, Bad);
      }
    }

    /** Puts the frames behind mapped pages in the used list. */
    method UseMapped(mapped: seq<nat>)
      requires Valid() && forall i <- mapped :: i < |frames|
      modifies this`lists, Heads(), frames
      ensures Valid() && lists == MoveAll(old(lists), mapped, Used)
    {
      for j := 0 to |mapped|
        invariant Valid() && lists == MoveAll(old(lists), mapped[..j], Used)
      {
        assert mapped[j] in mapped && mapped[..j + 1] == mapped[..j] + [mapped[j]];
        SetFrameState(mapped[j], Used);
      }
      assert mapped[..|mapped|] == mapped;
    }

    /** mm_pfd_setFrameState. */
    method SetFrameState(i: nat, st: State)
      requires Valid() && i < |frames|
      modifies this`lists, Heads(), frames
      ensures Valid() && lists == Move(old(lists), i, st)
    {
      ghost var l := lists;
      ghost var from, k := Where(l, i, |frames|);
      ghost var l1 := Dropped(l, i);
      DroppedAt(l, i, from, k);
      Unlink(frames[i], Heads(), frames, AsSeq(l), Index(from), k);
      Push(frames[i], Head(st), Heads(), frames, AsSeq(l1), Index(st));
      lists := Move(l, i, st);
      MoveDropped(l, i, st);
      MovePartition(l, i, st, |frames|);
    }

    /** mm_allocPhysicalPage: the address of the first free frame, which becomes used; None on an
        empty free list. */
    method AllocPhysicalPage() returns (page: Option<nat>)
      requires Valid()
      modifies this`lists, Heads(), frames
      ensures Valid() && lists == Allocate(old(lists), FromTop).0
      ensures page == if old(lists).free == [] then None else Some(old(lists).free[0] * PAGE_SIZE)
    {
      FreeRing();
      ghost var r := RingOf(freeList, frames, lists.free);
      var empty := ListEmpty(freeList, r);
      if empty {
        return None;
      }
      var first := freeList.next;
      assert first == r[1];
      SetFrameState(first.id, Used);
      page := Some(first.id * PAGE_SIZE);
    }

    /** mm_allocPhysicalPageBottom: the same from the other end of the free list. */
    method AllocPhysicalPageBottom() returns (page: Option<nat>)
      requires Valid()
      modifies this`lists, Heads(), frames
      ensures Valid() && lists == Allocate(old(lists), FromBottom).0
      ensures page == if old(lists).free == [] then None
                      else Some(old(lists).free[|old(lists).free| - 1] * PAGE_SIZE)
    {
      FreeRing();
      ghost var r := RingOf(freeList, frames, lists.free);
      var empty := ListEmpty(freeList, r);
      if empty {
        return None;
      }
      var last := freeList.prev;
      assert last == r[|r| - 1];
      SetFrameState(last.id, Used);
      page := Some(last.id * PAGE_SIZE);
    }

    lemma FreeRing()
      requires Valid()
      ensures InRange(frames, lists.free) && Ring(RingOf(freeList, frames, lists.free))
      ensures forall k :: 0 <= k < |lists.free| ==> frames[lists.free[k]].id == lists.free[k]
    {
      assert Heads()[0] == freeList && AsSeq(lists)[0] == lists.free;
    }

    lemma SegmentsBelow(segs: seq<Segment>)
      requires |frames| == HighestEnd(segs) / PAGE_SIZE
      ensures forall s <- segs :: Top(s) <= |frames|
    {
      forall s <- segs ensures Top(s) <= |frames| {
        EndBelowHighest(segs, s);
        assert s.base + s.length <= HighestEnd(segs);
      }
    }
  }

  /** The end of the segment that ends highest. */
  method FindHighestEnd(segs: seq<Segment>) returns (end: nat)
    requires segs != []
    ensures end == HighestEnd(segs)
    ensures (exists s <- segs :: end == s.base + s.length) && forall s <- segs :: s.base + s.length <= end
  {
    var high := segs[0];
    assert segs[..1] == [segs[0]];
    for j := 1 to |segs|
      invariant high in segs && high.base + high.length == HighestEnd(segs[..j])
    {
      assert segs[..j + 1] == segs[..j] + [segs[j]];
      if segs[j].base + segs[j].length > high.base + high.length {
        high := segs[j];
      }
    }
    assert segs[..|segs|] == segs;
    end := high.base + high.length;
    forall s <- segs ensures s.base + s.length <= end {
      EndBelowHighest(segs, s);
    }
  }

  lemma {:induction false} EndBelowHighest(segs: seq<Segment>, s: Segment)
    requires s in segs
    ensures s.base + s.length <= HighestEnd(segs)
  {
    var last := segs[|segs| - 1];
    assert segs == segs[..|segs| - 1] + [last];
    if s != last {
      EndBelowHighest(segs[..|segs| - 1], s);
    }
  }

  function Max(a: nat, b: nat): nat {
    if b > a then b else a
  }

  function HighestEnd(segs: seq<Segment>): nat {
    if segs == [] then 0
    else Max(HighestEnd(segs[..|segs| - 1]), segs[|segs| - 1].base + segs[|segs| - 1].length)
  }

  /** The list and the position at which a frame is found. */
  lemma {:induction false} Where(l: FrameLists.Lists, i: nat, n: nat) returns (st: State, k: nat)
    requires Partition(l, n) && i < n
    ensures k < |AsSeq(l)[Index(st)]| && AsSeq(l)[Index(st)][k] == i
    ensures forall m :: 0 <= m < 3 && m != Index(st) ==> i !in AsSeq(l)[m]
    ensures forall j :: 0 <= j < |AsSeq(l)[Index(st)]| && j != k ==> AsSeq(l)[Index(st)][j] != i
  {
    assert FrameLists.Placed(l, i, n);
    st := if i in multiset(l.free) then Free else if i in multiset(l.used) then Used else Bad;
    var s := AsSeq(l)[Index(st)];
    assert multiset(s)[i] == 1 && i in s;
    k :| 0 <= k < |s| && s[k] == i;
    forall m | 0 <= m < 3 && m != Index(st) ensures i !in AsSeq(l)[m] {
      assert multiset(AsSeq(l)[m])[i] == 0;
    }
    OnceOnly(s, k);
  }

  lemma {:induction false} OnceOnly(s: seq<nat>, k: nat)
    requires k < |s| && multiset(s)[s[k]] == 1
    ensures forall j :: 0 <= j < |s| && j != k ==> s[j] != s[k]
  {
    var rest := s[..k] + s[k + 1..];
    assert s == s[..k] + [s[k]] + s[k + 1..];
    assert multiset(s) == multiset(rest) + multiset{s[k]};
    forall j | 0 <= j < |s| && j != k ensures s[j] != s[k] {
      assert s[j] == rest[if j < k then j else j - 1];
    }
  }

  lemma {:induction false} WithoutAt(s: seq<nat>, k: nat)
    requires k < |s| && forall j :: 0 <= j < |s| && j != k ==> s[j] != s[k]
    ensures Without(s, s[k]) == s[..k] + s[k + 1..]
  {
    assert s == s[..k] + [s[k]] + s[k + 1..];
    WithoutSplit(s[..k], s[k], s[k + 1..]);
  }

  /** The lists without frame i. */
  ghost function Dropped(l: FrameLists.Lists, i: nat): FrameLists.Lists {
    FrameLists.Lists(Without(l.free, i), Without(l.used, i), Without(l.bad, i))
  }

  lemma {:induction false} DroppedAt(l: FrameLists.Lists, i: nat, st: State, k: nat)
    requires k < |AsSeq(l)[Index(st)]| && AsSeq(l)[Index(st)][k] == i
    requires forall m :: 0 <= m < 3 && m != Index(st) ==> i !in AsSeq(l)[m]
    requires forall j :: 0 <= j < |AsSeq(l)[Index(st)]| && j != k ==> AsSeq(l)[Index(st)][j] != i
    ensures var s := AsSeq(l)[Index(st)]; AsSeq(Dropped(l, i)) == AsSeq(l)[Index(st) := s[..k] + s[k + 1..]]
    ensures forall m :: 0 <= m < 3 ==> i !in AsSeq(Dropped(l, i))[m]
  {
    WithoutAt(AsSeq(l)[Index(st)], k);
    WithoutMember(l.free, i);
    WithoutMember(l.used, i);
    WithoutMember(l.bad, i);
    assert Index(st) != 0 ==> i !in AsSeq(l)[0];
    assert Index(st) != 1 ==> i !in AsSeq(l)[1];
    assert Index(st) != 2 ==> i !in AsSeq(l)[2];
  }

  lemma MoveDropped(l: FrameLists.Lists, i: nat, st: State)
    ensures AsSeq(Move(l, i, st)) == AsSeq(Dropped(l, i))[Index(st) := [i] + AsSeq(Dropped(l, i))[Index(st)]]
  {
  }
}
