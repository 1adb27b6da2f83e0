/** A binary heap of queue entries: the parent of position `k` is position `(k - 1) / 2`. */
module EntryHeap {
  import opened QueueSteps

  /** The heap order: `a` leaves before `b`. */
  predicate Before(a: Entry, b: Entry) {
    RankOf(a) < RankOf(b) || (RankOf(a) == RankOf(b) && a.sequence < b.sequence)
  }

  predicate NotAfter(a: Entry, b: Entry) {
    !Before(b, a)
  }

  lemma OrderLaws()
    ensures forall a: Entry, b: Entry, c: Entry :: NotAfter(a, b) && NotAfter(b, c) ==> NotAfter(a, c)
    ensures forall a: Entry, b: Entry :: NotAfter(a, b) || NotAfter(b, a)
    ensures forall a: Entry, b: Entry :: Before(a, b) ==> NotAfter(a, b)
  {
    hide RankOf;
  }

  function Parent(k: nat): (p: nat)
    requires k > 0
    ensures p < k
  {
    (k - 1) / 2
  }

  /** No entry leaves before its parent, the one at `hole` and the children of `above` aside. */
  predicate HeapBut(s: seq<Entry>, hole: nat, above: nat) {
    forall k :: 0 < k < |s| && k != hole && Parent(k) != above ==> NotAfter(s[Parent(k)], s[k])
  }

  predicate IsHeap(s: seq<Entry>) {
    forall k :: 0 < k < |s| ==> NotAfter(s[Parent(k)], s[k])
  }

  /** The children of a position do not leave before its parent. */
  predicate Bridged(s: seq<Entry>, i: nat) {
    i > 0 ==> forall k :: 0 < k < |s| && Parent(k) == i ==> NotAfter(s[Parent(i)], s[k])
  }

  function Swapped(s: seq<Entry>, i: nat, j: nat): (r: seq<Entry>)
    requires i < |s| && j < |s|
    ensures |r| == |s|
  {
    s[i := s[j]][j := s[i]]
  }

  lemma SwapKeeps(s: seq<Entry>, i: nat, j: nat)
    requires i < j < |s|
    ensures multiset(Swapped(s, i, j)) == multiset(s)
  {
    assert s == s[..i] + [s[i]] + s[i + 1..j] + [s[j]] + s[j + 1..];
    assert Swapped(s, i, j) == s[..i] + [s[j]] + s[i + 1..j] + [s[i]] + s[j + 1..];
  }

  /** Nothing in a heap leaves before its root. */
  lemma {:induction false} RootFirst(s: seq<Entry>, k: nat)
    requires IsHeap(s) && k < |s|
    ensures NotAfter(s[0], s[k])
  {
    hide NotAfter;
    OrderLaws();
    if k > 0 {
      RootFirst(s, Parent(k));
    } else {
      Reflexive(s[0]);
    }
  }

  lemma Reflexive(e: Entry)
    ensures NotAfter(e, e)
  {
  }

  lemma UpStep(s: seq<Entry>, i: nat)
    requires 0 < i < |s| && HeapBut(s, i, |s|) && Bridged(s, i) && Before(s[i], s[Parent(i)])
    ensures var t := Swapped(s, Parent(i), i); HeapBut(t, Parent(i), |s|) && Bridged(t, Parent(i))
  {
    OrderLaws();
    hide Before, NotAfter;
    var p, t := Parent(i), Swapped(s, Parent(i), i);
    forall k | 0 < k < |t| && k != p
      ensures NotAfter(t[Parent(k)], t[k])
    {
      assert k == i || Parent(k) == i || Parent(k) == p || (t[k] == s[k] && t[Parent(k)] == s[Parent(k)]);
    }
    if p > 0 {
      forall k | 0 < k < |t| && Parent(k) == p
        ensures NotAfter(t[Parent(p)], t[k])
      {
        assert NotAfter(s[Parent(p)], s[p]);
      }
    }
  }

  /** Move the entry at `i` up to its place. */
  method SiftUp(s: seq<Entry>, start: nat) returns (r: seq<Entry>)
    requires start < |s| && HeapBut(s, start, |s|) && Bridged(s, start)
    ensures IsHeap(r) && multiset(r) == multiset(s)
  {
    hide Before, NotAfter, Swapped, HeapBut, Bridged, IsHeap;
    r := s;
    var i: nat := start;
    while i > 0
      invariant i < |r| == |s| && HeapBut(r, i, |r|) && Bridged(r, i) && multiset(r) == multiset(s)
    {
      if !Before(r[i], r[Parent(i)]) {
        UpDone(r, i);
        return;
      }
      UpStep(r, i);
      SwapKeeps(r, Parent(i), i);
      r, i := Swapped(r, Parent(i), i), Parent(i);
    }
    UpDone(r, i);
  }

  lemma UpDone(s: seq<Entry>, i: nat)
    requires i < |s| && HeapBut(s, i, |s|) && (i > 0 ==> !Before(s[i], s[Parent(i)]))
    ensures IsHeap(s)
  {
  }

  lemma DownStep(s: seq<Entry>, i: nat, c: nat)
    requires i < c < |s| && Parent(c) == i && HeapBut(s, 0, i) && Bridged(s, i) && Before(s[c], s[i])
    requires forall k :: 0 < k < |s| && Parent(k) == i ==> NotAfter(s[c], s[k])
    ensures var t := Swapped(s, i, c); HeapBut(t, 0, c) && Bridged(t, c)
  {
    OrderLaws();
    hide Before, NotAfter;
    var t := Swapped(s, i, c);
    forall k | 0 < k < |t| && Parent(k) != c
      ensures NotAfter(t[Parent(k)], t[k])
    {
      if k == i {
        assert NotAfter(s[Parent(i)], s[c]);
      } else if Parent(k) == i && k != c {
        assert NotAfter(s[c], s[k]);
      }
    }
    forall k | 0 < k < |t| && Parent(k) == c
      ensures NotAfter(t[Parent(c)], t[k])
    {
      assert NotAfter(s[Parent(k)], s[k]);
    }
  }

  /** Move the root down to its place. */
  method SiftDown(s: seq<Entry>) returns (r: seq<Entry>)
    requires s != [] && HeapBut(s, 0, 0)
    ensures IsHeap(r) && multiset(r) == multiset(s)
  {
    hide Before, NotAfter, Swapped, HeapBut, Bridged, IsHeap;
    r := s;
    var i: nat := 0;
    BridgedRoot(s);
    while 2 * i + 1 < |r|
      invariant i < |r| == |s| && HeapBut(r, 0, i) && Bridged(r, i) && multiset(r) == multiset(s)
      decreases |r| - i
    {
      var c := FirstChild(r, i);
      if !Before(r[c], r[i]) {
        DownDone(r, i, c);
        return;
      }
      DownStep(r, i, c);
      SwapKeeps(r, i, c);
      r, i := Swapped(r, i, c), c;
    }
    BottomDone(r, i);
  }

  lemma BridgedRoot(s: seq<Entry>)
    ensures Bridged(s, 0)
  {
  }

  /** The child that leaves first. */
  method FirstChild(s: seq<Entry>, i: nat) returns (c: nat)
    requires 2 * i + 1 < |s|
    ensures i < c < |s| && Parent(c) == i
    ensures forall k :: 0 < k < |s| && Parent(k) == i ==> NotAfter(s[c], s[k])
  {
    c := 2 * i + 1;
    if 2 * i + 2 < |s| && Before(s[2 * i + 2], s[c]) {
      c := 2 * i + 2;
    }
    Children(i);
  }

  lemma Children(i: nat)
    ensures forall k: nat :: k > 0 && Parent(k) == i ==> k == 2 * i + 1 || k == 2 * i + 2
  {
  }

  lemma DownDone(s: seq<Entry>, i: nat, c: nat)
    requires i < c < |s| && HeapBut(s, 0, i) && !Before(s[c], s[i])
    requires forall k :: 0 < k < |s| && Parent(k) == i ==> NotAfter(s[c], s[k])
    ensures IsHeap(s)
  {
    assert NotAfter(s[i], s[c]);
    OrderLaws();
    hide Before, NotAfter;
  }

  lemma BottomDone(s: seq<Entry>, i: nat)
    requires i < |s| <= 2 * i + 1 && HeapBut(s, 0, i)
    ensures IsHeap(s)
  {
    Children(i);
    hide NotAfter;
  }

  // ---- The two operations ----

  method Push(heap: seq<Entry>, e: Entry) returns (r: seq<Entry>)
    requires IsHeap(heap)
    ensures IsHeap(r) && multiset(r) == multiset(heap) + multiset{e}
  {
    hide NotAfter;
    r := SiftUp(heap + [e], |heap|);
  }

  /** The entry that leaves first, and the rest. */
  method Pop(heap: seq<Entry>) returns (e: Entry, r: seq<Entry>)
    requires IsHeap(heap) && heap != []
    ensures e in heap && forall x :: x in heap ==> NotAfter(e, x)
    ensures IsHeap(r) && multiset(heap) == multiset(r) + multiset{e}
  {
    e := heap[0];
    forall x | x in heap ensures NotAfter(e, x) {
      var k :| 0 <= k < |heap| && heap[k] == x;
      RootFirst(heap, k);
    }
    var last := heap[|heap| - 1];
    var rest := heap[..|heap| - 1];
    if rest == [] {
      assert heap == [e];
      return e, [];
    }
    hide NotAfter;
    assert heap == [e] + rest[1..] + [last];
    RootReplaced(heap);
    r := SiftDown([last] + rest[1..]);
    assert multiset([last] + rest[1..]) == multiset{last} + multiset(rest[1..]);
    assert multiset(heap) == multiset{e} + multiset(rest[1..]) + multiset{last};
  }

  lemma RootReplaced(heap: seq<Entry>)
    requires IsHeap(heap) && |heap| >= 2
    ensures HeapBut([heap[|heap| - 1]] + heap[..|heap| - 1][1..], 0, 0)
  {
    hide NotAfter;
    var s := [heap[|heap| - 1]] + heap[..|heap| - 1][1..];
    forall k | 0 < k < |s| && Parent(k) != 0
      ensures NotAfter(s[Parent(k)], s[k])
    {
      assert s[k] == heap[k] && s[Parent(k)] == heap[Parent(k)];
    }
  }
}
