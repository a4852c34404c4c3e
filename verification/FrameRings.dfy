/** Several circular lists whose elements all come from one array of frames. */
module FrameRings {
  import opened Lists

  ghost predicate InRange(frames: seq<ListHead>, s: seq<nat>) {
    forall k :: 0 <= k < |s| ==> s[k] < |frames|
  }

  /** The ring that a list of frame numbers makes with its head. */
  ghost function RingOf(head: ListHead, frames: seq<ListHead>, s: seq<nat>): seq<ListHead>
    requires InRange(frames, s)
  {
    [head] + seq(|s|, k requires 0 <= k < |s| => frames[s[k]])
  }

  /** Heads and frames are all different objects, and each frame knows its number. */
  ghost predicate Separate(heads: seq<ListHead>, frames: seq<ListHead>) {
    && (forall i, j :: 0 <= i < j < |heads| ==> heads[i] != heads[j])
    && (forall i :: 0 <= i < |frames| ==> frames[i].id == i && frames[i] !in heads)
  }

  ghost predicate Apart(s: seq<nat>, t: seq<nat>) {
    forall i, j :: 0 <= i < |s| && 0 <= j < |t| ==> s[i] != t[j]
  }

  ghost predicate ListsApart(frames: seq<ListHead>, ls: seq<seq<nat>>) {
    && (forall j :: 0 <= j < |ls| ==> InRange(frames, ls[j]))
    && (forall j, m :: 0 <= j < |ls| && 0 <= m < |ls| && j != m ==> Apart(ls[j], ls[m]))
  }

  /** The j-th head is linked into a ring with the frames of the j-th list. */
  ghost predicate LinkedAs(heads: seq<ListHead>, frames: seq<ListHead>, ls: seq<seq<nat>>)
    reads heads, frames
  {
    && |heads| == |ls| && Separate(heads, frames) && ListsApart(frames, ls)
    && forall j :: 0 <= j < |ls| ==> Ring(RingOf(heads[j], frames, ls[j]))
  }

  ghost predicate NoneShared(r: seq<ListHead>, s: seq<ListHead>) {
    forall i, j :: 0 <= i < |r| && 0 <= j < |s| ==> r[i] != s[j]
  }

  lemma {:induction false} RingsDiffer(heads: seq<ListHead>, frames: seq<ListHead>, ls: seq<seq<nat>>, j: nat, m: nat)
    requires |heads| == |ls| && Separate(heads, frames) && ListsApart(frames, ls)
    requires j < |ls| && m < |ls| && j != m
    ensures NoneShared(RingOf(heads[j], frames, ls[j]), RingOf(heads[m], frames, ls[m]))
  {
    var s, t := ls[j], ls[m];
    assert Apart(s, t);
    forall i, k | 0 <= i < |s| && 0 <= k < |t| ensures frames[s[i]] != frames[t[k]] {
      assert frames[s[i]].id == s[i] && frames[t[k]].id == t[k];
    }
  }

  /** list_del on the frame at position k of the j-th list. */
  method Unlink(entry: ListHead, ghost heads: seq<ListHead>, ghost frames: seq<ListHead>, ghost ls: seq<seq<nat>>,
                ghost j: nat, ghost k: nat)
    requires LinkedAs(heads, frames, ls) && j < |ls| && k < |ls[j]| && entry == frames[ls[j][k]]
    modifies heads, frames
    ensures LinkedAs(heads, frames, ls[j := ls[j][..k] + ls[j][k + 1..]])
  {
    hide Ring;
    ghost var s := ls[j];
    ghost var s' := s[..k] + s[k + 1..];
    ghost var r := RingOf(heads[j], frames, s);
    assert r[..k + 1] + r[k + 2..] == RingOf(heads[j], frames, s');
    forall m | 0 <= m < |ls| && m != j ensures NoneShared(r, RingOf(heads[m], frames, ls[m])) {
      RingsDiffer(heads, frames, ls, j, m);
    }
    ListDel(entry, r, k + 1);
    forall m | 0 <= m < |ls| && m != j ensures Ring(RingOf(heads[m], frames, ls[m])) {
      assert NoneShared(r, RingOf(heads[m], frames, ls[m]));
    }
  }

  /** list_add of a frame that is in no list, to the front of the j-th. */
  method Push(n: ListHead, head: ListHead, ghost heads: seq<ListHead>, ghost frames: seq<ListHead>,
              ghost ls: seq<seq<nat>>, ghost j: nat)
    requires LinkedAs(heads, frames, ls) && j < |ls| && head == heads[j]
    requires n.id < |frames| && frames[n.id] == n && forall m :: 0 <= m < |ls| ==> n.id !in ls[m]
    modifies heads, frames
    ensures LinkedAs(heads, frames, ls[j := [n.id] + ls[j]])
  {
    hide Ring;
    ghost var r := RingOf(head, frames, ls[j]);
    assert [head, n] + r[1..] == RingOf(head, frames, [n.id] + ls[j]);
    forall m | 0 <= m < |ls| ensures n !in RingOf(heads[m], frames, ls[m]) {
      NotIn(heads, frames, ls[m], m, n);
    }
    forall m | 0 <= m < |ls| && m != j ensures NoneShared(r, RingOf(heads[m], frames, ls[m])) {
      RingsDiffer(heads, frames, ls, j, m);
    }
    ListAdd(n, head, r);
    forall m | 0 <= m < |ls| && m != j ensures Ring(RingOf(heads[m], frames, ls[m])) {
      assert NoneShared(r, RingOf(heads[m], frames, ls[m]));
      assert n !in RingOf(heads[m], frames, ls[m]);
    }
  }

  lemma {:induction false} NotIn(heads: seq<ListHead>, frames: seq<ListHead>, s: seq<nat>, m: nat, n: ListHead)
    requires Separate(heads, frames) && InRange(frames, s) && m < |heads|
    requires n.id < |frames| && frames[n.id] == n && n.id !in s
    ensures n !in RingOf(heads[m], frames, s)
  {
    forall k | 0 <= k < |s| ensures frames[s[k]] != n {
      assert s[k] in s;
      assert frames[s[k]].id == s[k];
    }
    assert heads[m] in heads;
  }
}
