/** The three lists of the page frame database as sequences of frame numbers, and what
    allocation does to them over whole runs. */
module FrameLists {

  datatype State = Free | Used | Bad

  datatype Lists = Lists(free: seq<nat>, used: seq<nat>, bad: seq<nat>)

  function Get(l: Lists, st: State): seq<nat> {
    match st case Free => l.free case Used => l.used case Bad => l.bad
  }

  ghost function Count(l: Lists, i: nat): nat {
    multiset(l.free)[i] + multiset(l.used)[i] + multiset(l.bad)[i]
  }

  ghost predicate Placed(l: Lists, i: nat, n: nat) {
    Count(l, i) == if i < n then 1 else 0
  }

  /** Every frame below n is in exactly one list, exactly once, and nothing else is in any. */
  ghost predicate Partition(l: Lists, n: nat) {
    forall i: nat :: Placed(l, i, n)
  }

  predicate Descending(s: seq<nat>) {
    forall i, j :: 0 <= i < j < |s| ==> s[i] > s[j]
  }

  function Without(s: seq<nat>, x: nat): seq<nat> {
    if s == [] then []
    else if s[0] == x then Without(s[1..], x)
    else [s[0]] + Without(s[1..], x)
  }

  /** mm_pfd_setFrameState: out of the list it is in, to the front of the other. */
  function Move(l: Lists, i: nat, st: State): Lists {
    var f, u, b := Without(l.free, i), Without(l.used, i), Without(l.bad, i);
    match st
    case Free => Lists([i] + f, u, b)
    case Used => Lists(f, [i] + u, b)
    case Bad => Lists(f, u, [i] + b)
  }

  lemma {:induction false} WithoutCount(s: seq<nat>, x: nat, i: nat)
    ensures multiset(Without(s, x))[i] == if i == x then 0 else multiset(s)[i]
  {
    if s != [] {
      assert s == [s[0]] + s[1..];
      WithoutCount(s[1..], x, i);
    }
  }

  lemma {:induction false} WithoutMember(s: seq<nat>, x: nat)
    ensures forall i: nat :: i in Without(s, x) <==> i in s && i != x
    ensures Descending(s) ==> Descending(Without(s, x))
    ensures x !in s ==> Without(s, x) == s
  {
    WithoutIn(s, x);
    WithoutDescending(s, x);
    if x !in s {
      WithoutAbsent(s, x);
    }
  }

  lemma {:induction false} WithoutIn(s: seq<nat>, x: nat)
    ensures forall i: nat :: i in Without(s, x) <==> i in s && i != x
  {
    if s != [] {
      WithoutIn(s[1..], x);
      assert s == [s[0]] + s[1..];
    }
  }

  lemma {:induction false} WithoutAbsent(s: seq<nat>, x: nat)
    requires x !in s
    ensures Without(s, x) == s
  {
    if s != [] {
      WithoutAbsent(s[1..], x);
    }
  }

  lemma {:induction false} WithoutDescending(s: seq<nat>, x: nat)
    ensures Descending(s) ==> Descending(Without(s, x))
  {
    if s != [] && Descending(s) {
      var t := Without(s[1..], x);
      WithoutDescending(s[1..], x);
      WithoutIn(s[1..], x);
      forall i | 0 <= i < |t| ensures t[i] < s[0] {
        assert t[i] in s[1..];
      }
    }
  }

  lemma {:induction false} WithoutSplit(a: seq<nat>, x: nat, b: seq<nat>)
    requires x !in a && x !in b
    ensures Without(a + [x] + b, x) == a + b
  {
    var s := a + [x] + b;
    if a == [] {
      assert s[1..] == b;
      WithoutMember(b, x);
    } else {
      assert s[1..] == a[1..] + [x] + b;
      WithoutSplit(a[1..], x, b);
    }
  }

  /** Moving a frame keeps the partition. */
  lemma {:induction false} MovePartition(l: Lists, i: nat, st: State, n: nat)
    requires Partition(l, n) && i < n
    ensures Partition(Move(l, i, st), n)
    ensures i in Get(Move(l, i, st), st)
  {
    var l' := Move(l, i, st);
    forall j: nat ensures Placed(l', j, n) {
      WithoutCount(l.free, i, j);
      WithoutCount(l.used, i, j);
      WithoutCount(l.bad, i, j);
      assert Placed(l, j, n);
    }
  }

  // ---- mm_initPfd ----

  const PAGE_SIZE: nat := 4096

  /** A RAM segment: base address and length in bytes. */
  datatype Segment = Segment(base: nat, length: nat)

  function Bottom(s: Segment): nat {
    s.base / PAGE_SIZE
  }

  function Top(s: Segment): nat {
    (s.base + s.length) / PAGE_SIZE
  }

  function MoveRange(l: Lists, lo: nat, hi: nat, st: State): Lists
    requires lo <= hi
    decreases hi
  {
    if lo == hi then l else Move(MoveRange(l, lo, hi - 1, st), hi - 1, st)
  }

  function MoveSegments(l: Lists, segs: seq<Segment>): Lists {
    if segs == [] then l
    else
      var s := segs[|segs| - 1];
      MoveRange(MoveSegments(l, segs[..|segs| - 1]), Bottom(s), Top(s), Free)
  }

  function MoveAll(l: Lists, frames: seq<nat>, st: State): Lists {
    if frames == [] then l
    else Move(MoveAll(l, frames[..|frames| - 1], st), frames[|frames| - 1], st)
  }

  function CountDown(n: nat): (s: seq<nat>)
    ensures |s| == n && forall i :: 0 <= i < n ==> s[i] == n - 1 - i
  {
    if n == 0 then [] else [n - 1] + CountDown(n - 1)
  }

  /** The lists after mm_initPfd on n frames: all bad, the RAM segments free, the last four frames
      bad again (none if there are fewer), and the frames behind mapped pages used. */
  function InitLists(n: nat, segs: seq<Segment>, mapped: seq<nat>): Lists {
    var l1 := MoveSegments(Lists([], [], CountDown(n)), segs);
    MoveAll(WithoutLastFour(l1, n), mapped, Used)
  }

  /** The counter is unsigned: with fewer than four frames it starts beyond the end. */
  function WithoutLastFour(l: Lists, n: nat): Lists {
    if n >= 4 then MoveRange(l, n - 4, n, Bad) else l
  }

  predicate Ascending(segs: seq<Segment>) {
    forall i, j :: 0 <= i < j < |segs| ==> Top(segs[i]) <= Bottom(segs[j])
  }

  /** The last byte of frame i lies in the segment: its first frame may be partly outside. */
  predicate EndsIn(i: nat, s: Segment) {
    s.base < (i + 1) * PAGE_SIZE <= s.base + s.length
  }

  predicate InRam(i: nat, segs: seq<Segment>) {
    exists s <- segs :: EndsIn(i, s)
  }

  lemma {:induction false} FramesOf(s: Segment)
    ensures forall i: nat :: EndsIn(i, s) <==> Bottom(s) <= i < Top(s)
  {
  }

  lemma {:induction false} MoveRangeStep(l: Lists, lo: nat, hi: nat, st: State)
    requires lo < hi
    ensures MoveRange(l, lo, hi, st) == Move(MoveRange(l, lo, hi - 1, st), hi - 1, st)
  {
  }

  lemma {:induction false} MovedPartition(l: Lists, l': Lists, i: nat, st: State, n: nat)
    requires Partition(l, n) && i < n && l' == Move(l, i, st)
    ensures Partition(l', n)
  {
    MovePartition(l, i, st, n);
  }

  lemma {:induction false} MoveRangeKeeps(l: Lists, lo: nat, hi: nat, st: State, n: nat)
    requires Partition(l, n) && lo <= hi <= n
    ensures Partition(MoveRange(l, lo, hi, st), n)
    decreases hi
  {
    hide Partition, Move;
    if lo < hi {
      MoveRangeKeeps(l, lo, hi - 1, st, n);
      MoveRangeStep(l, lo, hi, st);
      MovedPartition(MoveRange(l, lo, hi - 1, st), MoveRange(l, lo, hi, st), hi - 1, st, n);
    }
  }

  lemma {:induction false} MovedFree(l: Lists, l': Lists, i: nat)
    requires l' == Move(l, i, Free)
    ensures forall j: nat :: j in l'.free <==> j in l.free || j == i
    ensures Descending(l.free) && (forall j <- l.free :: j < i) ==> Descending(l'.free)
  {
    WithoutMember(l.free, i);
    hide Without;
    assert forall k :: 0 <= k < |l.free| ==> l.free[k] in l.free;
  }

  /** Freeing an ascending range above all free frames keeps the free list descending. */
  lemma {:induction false} FreeRange(l: Lists, lo: nat, hi: nat)
    requires lo <= hi
    ensures forall i: nat :: i in MoveRange(l, lo, hi, Free).free <==> i in l.free || lo <= i < hi
    ensures Descending(l.free) && (forall i <- l.free :: i < lo) ==> Descending(MoveRange(l, lo, hi, Free).free)
    decreases hi
  {
    if lo < hi {
      FreeRange(l, lo, hi - 1);
      MoveRangeStep(l, lo, hi, Free);
      MovedFree(MoveRange(l, lo, hi - 1, Free), MoveRange(l, lo, hi, Free), hi - 1);
    }
  }

  /** Taking frames out of the free list keeps it descending. */
  lemma {:induction false} LeaveFree(l: Lists, lo: nat, hi: nat, st: State)
    requires lo <= hi && st != Free
    ensures forall i: nat :: i in MoveRange(l, lo, hi, st).free <==> i in l.free && !(lo <= i < hi)
    ensures Descending(l.free) ==> Descending(MoveRange(l, lo, hi, st).free)
    decreases hi
  {
    if lo < hi {
      LeaveFree(l, lo, hi - 1, st);
      WithoutMember(MoveRange(l, lo, hi - 1, st).free, hi - 1);
    }
  }

  lemma {:induction false} SegmentsFree(l: Lists, segs: seq<Segment>, n: nat)
    requires l.free == [] && Partition(l, n) && forall s <- segs :: Top(s) <= n
    ensures var l' := MoveSegments(l, segs);
            && Partition(l', n) && (Ascending(segs) ==> Descending(l'.free))
            && forall i: nat :: i in l'.free <==> InRam(i, segs)
  {
    if segs != [] {
      hide Partition, MoveRange, Ascending, Descending, EndsIn, Bottom, Top, InRam;
      var before, s := segs[..|segs| - 1], segs[|segs| - 1];
      SegmentsFree(l, before, n);
      FramesOf(s);
      LastSegment(segs);
      var l1 := MoveSegments(l, before);
      BottomBelowTop(s);
      FreeRange(l1, Bottom(s), Top(s));
      MoveRangeKeeps(l1, Bottom(s), Top(s), Free, n);
    } else {
      assert forall i: nat :: !InRam(i, segs);
    }
  }

  lemma {:induction false} BottomBelowTop(s: Segment)
    ensures Bottom(s) <= Top(s)
  {
  }

  /** The last segment lies above all others if they ascend. */
  lemma {:induction false} LastSegment(segs: seq<Segment>)
    requires segs != []
    ensures var before, s := segs[..|segs| - 1], segs[|segs| - 1];
            && (Ascending(segs) ==> Ascending(before))
            && (Ascending(segs) ==> forall i: nat :: InRam(i, before) ==> i < Bottom(s))
            && forall i: nat :: InRam(i, segs) <==> InRam(i, before) || EndsIn(i, s)
  {
    var before, s := segs[..|segs| - 1], segs[|segs| - 1];
    assert segs == before + [s];
    forall i: nat | InRam(i, before) && Ascending(segs) ensures i < Bottom(s) {
      var s1 :| s1 in before && EndsIn(i, s1);
      FramesOf(s1);
    }
    forall i: nat ensures InRam(i, segs) <==> InRam(i, before) || EndsIn(i, s) {
      assert s in segs;
    }
  }

  /** Nothing is used before the mapped pages are. */
  lemma {:induction false} NoneUsedRange(l: Lists, lo: nat, hi: nat, st: State)
    requires lo <= hi && st != Used && l.used == []
    ensures MoveRange(l, lo, hi, st).used == []
    decreases hi
  {
    if lo < hi {
      NoneUsedRange(l, lo, hi - 1, st);
      MoveRangeStep(l, lo, hi, st);
      WithoutMember([], hi - 1);
    }
  }

  lemma {:induction false} NoneUsed(l: Lists, segs: seq<Segment>, n: nat)
    requires l.used == []
    ensures WithoutLastFour(MoveSegments(l, segs), n).used == []
  {
    NoneUsedSegments(l, segs);
    if n >= 4 {
      NoneUsedRange(MoveSegments(l, segs), n - 4, n, Bad);
    }
  }

  lemma {:induction false} NoneUsedSegments(l: Lists, segs: seq<Segment>)
    requires l.used == []
    ensures MoveSegments(l, segs).used == []
  {
    if segs != [] {
      var s := segs[|segs| - 1];
      NoneUsedSegments(l, segs[..|segs| - 1]);
      NoneUsedRange(MoveSegments(l, segs[..|segs| - 1]), Bottom(s), Top(s), Free);
    }
  }

  lemma {:induction false} UsedLeaveFree(l: Lists, mapped: seq<nat>, n: nat)
    requires Partition(l, n) && forall i <- mapped :: i < n
    ensures var l' := MoveAll(l, mapped, Used);
            && Partition(l', n) && (Descending(l.free) ==> Descending(l'.free))
            && forall i: nat :: i in l'.free <==> i in l.free && i !in mapped
    ensures forall i: nat :: i in MoveAll(l, mapped, Used).used <==> i in l.used || i in mapped
  {
    if mapped != [] {
      var before, i := mapped[..|mapped| - 1], mapped[|mapped| - 1];
      assert mapped == before + [i];
      assert i in mapped && forall j <- before :: j in mapped;
      UsedLeaveFree(l, before, n);
      MovePartition(MoveAll(l, before, Used), i, Used, n);
      WithoutMember(MoveAll(l, before, Used).free, i);
      WithoutMember(MoveAll(l, before, Used).used, i);
    }
  }

  lemma {:induction false} AllBad(n: nat)
    ensures Partition(Lists([], [], CountDown(n)), n)
  {
    forall i: nat ensures Placed(Lists([], [], CountDown(n)), i, n) {
      CountDownCount(n, i);
    }
  }

  lemma {:induction false} CountDownCount(n: nat, i: nat)
    ensures multiset(CountDown(n))[i] == if i < n then 1 else 0
  {
    hide CountDown;
    CountDownStep(n);
    if n > 0 {
      CountDownCount(n - 1, i);
    }
  }

  lemma {:induction false} CountDownStep(n: nat)
    ensures n == 0 ==> multiset(CountDown(n)) == multiset{}
    ensures n > 0 ==> multiset(CountDown(n)) == multiset{n - 1} + multiset(CountDown(n - 1))
  {
    if n > 0 {
      assert CountDown(n) == [n - 1] + CountDown(n - 1);
    }
  }

  /** In a partition a frame that is neither free nor used is bad. */
  lemma {:induction false} BadMembers(l: Lists, n: nat)
    requires Partition(l, n)
    ensures forall i: nat :: i in l.bad <==> i < n && i !in l.free && i !in l.used
  {
    forall i: nat ensures i in l.bad <==> i < n && i !in l.free && i !in l.used {
      assert Placed(l, i, n);
      assert i in multiset(l.bad) <==> i < n && i !in multiset(l.free) && i !in multiset(l.used);
    }
  }

  /** Reserved at the end of the memory: the last four frames, or none if there are fewer. */
  predicate AtTheEnd(i: nat, n: nat) {
    n >= 4 && n - 4 <= i < n
  }

  /** After mm_initPfd every frame is in exactly one list: the mapped ones are used, those outside the
      RAM or at the end of the memory bad unless they are mapped, and the others free. If the segments
      are ascending and disjoint, the free list is strictly descending. */
  lemma {:induction false} InitListsCorrect(n: nat, segs: seq<Segment>, mapped: seq<nat>)
    requires (forall s <- segs :: Top(s) <= n) && forall i <- mapped :: i < n
    ensures Partition(InitLists(n, segs, mapped), n)
    ensures Ascending(segs) ==> Descending(InitLists(n, segs, mapped).free)
    ensures forall i: nat :: i in InitLists(n, segs, mapped).free <==>
              InRam(i, segs) && !AtTheEnd(i, n) && i !in mapped
    ensures forall i: nat :: i in InitLists(n, segs, mapped).used <==> i in mapped
    ensures forall i: nat :: i in InitLists(n, segs, mapped).bad <==>
              i < n && (!InRam(i, segs) || AtTheEnd(i, n)) && i !in mapped
  {
    var l0 := Lists([], [], CountDown(n));
    AllBad(n);
    SegmentsFree(l0, segs, n);
    var l1 := MoveSegments(l0, segs);
    var l2 := WithoutLastFour(l1, n);
    LastFour(l1, n);
    UsedLeaveFree(l2, mapped, n);
    NoneUsed(l0, segs, n);
    assert InitLists(n, segs, mapped) == MoveAll(l2, mapped, Used);
    BadMembers(InitLists(n, segs, mapped), n);
  }

  lemma {:induction false} LastFour(l: Lists, n: nat)
    requires Partition(l, n)
    ensures Partition(WithoutLastFour(l, n), n) && (Descending(l.free) ==> Descending(WithoutLastFour(l, n).free))
    ensures forall i: nat :: i in WithoutLastFour(l, n).free <==> i in l.free && !AtTheEnd(i, n)
  {
    if n >= 4 {
      MoveRangeKeeps(l, n - 4, n, Bad, n);
      LeaveFree(l, n - 4, n, Bad);
    }
  }

  // ---- Allocation ----

  datatype Request = FromTop | FromBottom

  datatype Answer = Exhausted | Frame(number: nat)

  /** mm_allocPhysicalPage and mm_allocPhysicalPageBottom. */
  function Allocate(l: Lists, req: Request): (Lists, Answer) {
    if l.free == [] then (l, Exhausted)
    else
      var i := if req == FromTop then l.free[0] else l.free[|l.free| - 1];
      (Move(l, i, Used), Frame(i))
  }

  function Run(l: Lists, reqs: seq<Request>): (Lists, seq<nat>)
    decreases |reqs|
  {
    if reqs == [] then (l, [])
    else
      var (l1, a) := Allocate(l, reqs[0]);
      var (l2, got) := Run(l1, reqs[1..]);
      (l2, if a.Frame? then [a.number] + got else got)
  }

  /** One allocation fails only on an empty free list; otherwise it hands out a free frame, the
      highest (or lowest) one if the list is descending, and the frame goes from the free list to
      the front of the used list. */
  lemma {:induction false} AllocateCorrect(l: Lists, req: Request, n: nat)
    requires Partition(l, n)
    ensures Partition(Allocate(l, req).0, n) && (Descending(l.free) ==> Descending(Allocate(l, req).0.free))
    ensures Allocate(l, req).0.bad == l.bad
    ensures Allocate(l, req).1.Exhausted? <==> l.free == []
    ensures l.free == [] ==> Allocate(l, req).0 == l
    ensures l.free != [] ==>
              var i := Allocate(l, req).1.number;
              && i in l.free && i < n
              && Allocate(l, req).0.used == [i] + l.used
              && (forall j: nat :: j in Allocate(l, req).0.free <==> j in l.free && j != i)
              && (Descending(l.free) ==> forall j <- l.free :: if req == FromTop then j <= i else i <= j)
  {
    hide Partition, Placed, Without, Move, Descending;
    if l.free != [] {
      var i := Allocate(l, req).1.number;
      EndOfList(l.free, i, req);
      InOneList(l, i, n);
      MovePartition(l, i, Used, n);
      MoveToUsed(l, i);
    }
  }

  lemma {:induction false} EndOfList(s: seq<nat>, i: nat, req: Request)
    requires s != [] && i == if req == FromTop then s[0] else s[|s| - 1]
    ensures i in s
    ensures Descending(s) ==> forall j <- s :: if req == FromTop then j <= i else i <= j
  {
  }

  lemma {:induction false} MoveToUsed(l: Lists, i: nat)
    requires i !in l.used && i !in l.bad
    ensures var l' := Move(l, i, Used);
            && l'.used == [i] + l.used && l'.bad == l.bad
            && (forall j: nat :: j in l'.free <==> j in l.free && j != i)
            && (Descending(l.free) ==> Descending(l'.free))
  {
    WithoutMember(l.free, i);
    WithoutMember(l.used, i);
    WithoutMember(l.bad, i);
  }

  lemma {:induction false} InOneList(l: Lists, i: nat, n: nat)
    requires Partition(l, n) && i in l.free
    ensures i < n && i !in l.used && i !in l.bad
  {
    assert multiset(l.free)[i] > 0;
    assert Placed(l, i, n);
    assert i !in multiset(l.used) && i !in multiset(l.bad);
  }

  ghost predicate NoDuplicates(s: seq<nat>) {
    forall i, j :: 0 <= i < j < |s| ==> s[i] != s[j]
  }

  /** Over any run of allocations the partition and the order of the free list are kept, no frame
      is handed out twice, the frames handed out go from the free list to the used one, and a
      request is refused only when the free list has become empty. */
  lemma {:induction false} RunCorrect(l: Lists, reqs: seq<Request>, n: nat)
    requires Partition(l, n)
    ensures Partition(Run(l, reqs).0, n) && (Descending(l.free) ==> Descending(Run(l, reqs).0.free))
    ensures Run(l, reqs).0.bad == l.bad
    ensures NoDuplicates(Run(l, reqs).1)
    ensures forall i: nat :: i in Run(l, reqs).0.free <==> i in l.free && i !in Run(l, reqs).1
    ensures forall i: nat :: i in Run(l, reqs).0.used <==> i in l.used || i in Run(l, reqs).1
    ensures forall i <- Run(l, reqs).1 :: i in l.free
    ensures |Run(l, reqs).1| <= |reqs|
    ensures |Run(l, reqs).1| < |reqs| ==> Run(l, reqs).0.free == []
    decreases |reqs|
  {
    if reqs != [] {
      AllocateCorrect(l, reqs[0], n);
      var (l1, a) := Allocate(l, reqs[0]);
      RunCorrect(l1, reqs[1..], n);
      if a.Exhausted? {
        RunExhausted(l, reqs[1..]);
      }
    }
  }

  lemma {:induction false} RunExhausted(l: Lists, reqs: seq<Request>)
    requires l.free == []
    ensures Run(l, reqs) == (l, [])
    decreases |reqs|
  {
    if reqs != [] {
      RunExhausted(l, reqs[1..]);
    }
  }

  /** From mm_initPfd on: over any run of allocations the frames handed out are different RAM frames,
      none of them mapped or among the last four. All lists together stay a partition: the used
      list holds the mapped frames and those handed out, and the bad list what it held. */
  lemma {:induction false} InitThenRun(n: nat, segs: seq<Segment>, mapped: seq<nat>, reqs: seq<Request>)
    requires (forall s <- segs :: Top(s) <= n) && forall i <- mapped :: i < n
    ensures Partition(Run(InitLists(n, segs, mapped), reqs).0, n)
    ensures Ascending(segs) ==> Descending(Run(InitLists(n, segs, mapped), reqs).0.free)
    ensures NoDuplicates(Run(InitLists(n, segs, mapped), reqs).1)
    ensures forall i <- Run(InitLists(n, segs, mapped), reqs).1 ::
              InRam(i, segs) && !AtTheEnd(i, n) && i !in mapped
    ensures forall i: nat :: i in Run(InitLists(n, segs, mapped), reqs).0.used <==>
              i in mapped || i in Run(InitLists(n, segs, mapped), reqs).1
    ensures forall i: nat :: i in Run(InitLists(n, segs, mapped), reqs).0.bad <==>
              i < n && (!InRam(i, segs) || AtTheEnd(i, n)) && i !in mapped
  {
    InitListsCorrect(n, segs, mapped);
    RunCorrect(InitLists(n, segs, mapped), reqs, n);
  }
}
