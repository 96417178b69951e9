/** rqsort: quicksort with a three-way partition and an explicit stack of fifty
    segments, heapsort where the recursion gets too deep, insertion sort for short
    segments. Elements are addressed by index; `lo` is the start of a segment. */
module Rqsort {

  ghost predicate TotalPreorder<T(!new)>(cmp: (T, T) -> int) {
    && (forall x, y :: cmp(x, y) <= 0 <==> cmp(y, x) >= 0)
    && (forall x, y, z :: cmp(x, y) <= 0 && cmp(y, z) <= 0 ==> cmp(x, z) <= 0)
  }

  ghost predicate Sorted<T(!new)>(s: seq<T>, cmp: (T, T) -> int) {
    forall i, j :: 0 <= i < j < |s| ==> cmp(s[i], s[j]) <= 0
  }

  /** `t` is `s` with the elements of [lo, hi) rearranged. */
  ghost predicate Rearranged<T(!new)>(s: seq<T>, t: seq<T>, lo: int, hi: int) {
    && |t| == |s| && multiset(t) == multiset(s)
    && forall k :: 0 <= k < |s| && !(lo <= k < hi) ==> t[k] == s[k]
  }

  lemma RearrangedTwice<T(!new)>(s: seq<T>, t: seq<T>, u: seq<T>, lo: int, hi: int)
    requires Rearranged(s, t, lo, hi) && Rearranged(t, u, lo, hi)
    ensures Rearranged(s, u, lo, hi)
  {
  }

  lemma PartBag<T(!new)>(s: seq<T>, t: seq<T>, lo: nat, hi: nat)
    requires Rearranged(s, t, lo, hi) && lo <= hi <= |s|
    ensures multiset(t[lo..hi]) == multiset(s[lo..hi])
  {
    SplitParts(s, t, lo, hi);
    ThreeBags(s[..lo], s[lo..hi], s[hi..]);
    ThreeBags(s[..lo], t[lo..hi], s[hi..]);
    CancelBags(multiset(s[..lo]), multiset(s[lo..hi]), multiset(t[lo..hi]), multiset(s[hi..]));
  }

  lemma SplitParts<T(!new)>(s: seq<T>, t: seq<T>, lo: nat, hi: nat)
    requires Rearranged(s, t, lo, hi) && lo <= hi <= |s|
    ensures s == s[..lo] + s[lo..hi] + s[hi..] && t == s[..lo] + t[lo..hi] + s[hi..]
  {
    assert t[..lo] == s[..lo] && t[hi..] == s[hi..];
  }

  lemma ThreeBags<T(!new)>(x: seq<T>, y: seq<T>, z: seq<T>)
    ensures multiset(x + y + z) == multiset(x) + multiset(y) + multiset(z)
  {
  }

  lemma CancelBags<T(!new)>(x: multiset<T>, y: multiset<T>, w: multiset<T>, z: multiset<T>)
    requires x + y + z == x + w + z
    ensures y == w
  {
    assert y == x + y + z - x - z;
    assert w == x + w + z - x - z;
  }

  /** Every element of the rearranged part was in it before. */
  lemma RearrangedFrom<T(!new)>(s: seq<T>, t: seq<T>, lo: nat, hi: nat, k: nat) returns (j: nat)
    requires Rearranged(s, t, lo, hi) && lo <= k < hi <= |s|
    ensures lo <= j < hi && s[j] == t[k]
  {
    PartBag(s, t, lo, hi);
    assert t[k] == t[lo..hi][k - lo];
    assert t[k] in multiset(t[lo..hi]);
    assert t[k] in s[lo..hi];
    var i :| 0 <= i < hi - lo && s[lo..hi][i] == t[k];
    j := lo + i;
  }

  method Swap<T(!new)>(a: array<T>, i: nat, j: nat)
    requires i < a.Length && j < a.Length
    modifies a
    ensures a[..] == old(a[..])[i := old(a[j])][j := old(a[i])]
    ensures multiset(a[..]) == multiset(old(a[..]))
  {
    a[i], a[j] := a[j], a[i];
  }

  /* ----- insertion sort ----- */

  ghost predicate SortedIn<T(!new)>(s: seq<T>, lo: int, hi: int, cmp: (T, T) -> int) {
    forall i, j :: 0 <= lo <= i < j < hi <= |s| ==> cmp(s[i], s[j]) <= 0
  }

  /** Sorted but for the element at `m`, which is to sink. */
  ghost predicate Sinking<T(!new)>(s: seq<T>, lo: int, m: int, hi: int, cmp: (T, T) -> int) {
    && 0 <= lo <= m < hi <= |s|
    && (forall i, j :: lo <= i < j < hi && i != m && j != m ==> cmp(s[i], s[j]) <= 0)
    && (forall j :: m < j < hi ==> cmp(s[m], s[j]) <= 0)
  }

  lemma Sunk<T(!new)>(s: seq<T>, lo: int, m: int, hi: int, cmp: (T, T) -> int)
    requires TotalPreorder(cmp) && Sinking(s, lo, m, hi, cmp)
    requires m == lo || cmp(s[m - 1], s[m]) <= 0
    ensures SortedIn(s, lo, hi, cmp)
  {
    forall i, j | lo <= i < j < hi ensures cmp(s[i], s[j]) <= 0 {
      if j == m && i < m - 1 {
        assert cmp(s[i], s[m - 1]) <= 0;
      }
    }
  }

  lemma SinkOne<T(!new)>(s: seq<T>, lo: int, m: int, hi: int, cmp: (T, T) -> int)
    requires TotalPreorder(cmp) && Sinking(s, lo, m, hi, cmp)
    requires m > lo && cmp(s[m - 1], s[m]) > 0
    ensures Sinking(s[m := s[m - 1]][m - 1 := s[m]], lo, m - 1, hi, cmp)
  {
    var t := s[m := s[m - 1]][m - 1 := s[m]];
    forall i, j | lo <= i < j < hi && i != m - 1 && j != m - 1 ensures cmp(t[i], t[j]) <= 0 {
      assert t[i] == if i == m then s[m - 1] else s[i];
      assert t[j] == if j == m then s[m - 1] else s[j];
    }
    forall j | m - 1 < j < hi ensures cmp(t[m - 1], t[j]) <= 0 {
      assert t[m - 1] == s[m] && t[j] == if j == m then s[m - 1] else s[j];
    }
  }

  method InsertionSort<T(!new)>(a: array<T>, lo: nat, n: nat, cmp: (T, T) -> int)
    requires lo + n <= a.Length
    modifies a
    ensures Rearranged(old(a[..]), a[..], lo, lo + n)
    ensures TotalPreorder(cmp) ==> SortedIn(a[..], lo, lo + n, cmp)
  {
    hide TotalPreorder;
    var pi := lo + 1;
    while pi < lo + n
      invariant lo < pi
      invariant Rearranged(old(a[..]), a[..], lo, lo + n)
      invariant TotalPreorder(cmp) ==> SortedIn(a[..], lo, if pi < lo + n then pi else lo + n, cmp)
    {
      InsertOne(a, lo, pi, cmp);
      pi := pi + 1;
    }
  }

  method InsertOne<T(!new)>(a: array<T>, lo: nat, pi: nat, cmp: (T, T) -> int)
    requires lo < pi < a.Length
    modifies a
    ensures Rearranged(old(a[..]), a[..], lo, pi + 1)
    ensures TotalPreorder(cmp) && SortedIn(old(a[..]), lo, pi, cmp) ==> SortedIn(a[..], lo, pi + 1, cmp)
  {
    hide TotalPreorder, SortedIn, Sinking, Rearranged;
    var pj := pi;
    ghost var s0 := a[..];
    ghost var ok := TotalPreorder(cmp) && SortedIn(s0, lo, pi, cmp);
    RearrangedSelf(s0, lo, pi + 1);
    if ok { StartSinking(s0, lo, pi, cmp); }
    while pj > lo && cmp(a[pj - 1], a[pj]) > 0
      invariant lo <= pj <= pi
      invariant Rearranged(s0, a[..], lo, pi + 1)
      invariant ok ==> Sinking(a[..], lo, pj, pi + 1, cmp)
    {
      SwapDown(a, lo, pj, pi + 1, cmp, s0, ok);
      pj := pj - 1;
    }
    if ok { Sunk(a[..], lo, pj, pi + 1, cmp); }
  }

  /** One exchange of the inner loop. */
  method SwapDown<T(!new)>(a: array<T>, lo: nat, pj: nat, hi: nat, cmp: (T, T) -> int, ghost s0: seq<T>, ghost ok: bool)
    requires lo < pj < hi <= a.Length && Rearranged(s0, a[..], lo, hi)
    requires ok ==> TotalPreorder(cmp) && Sinking(a[..], lo, pj, hi, cmp) && cmp(a[pj - 1], a[pj]) > 0
    modifies a
    ensures Rearranged(s0, a[..], lo, hi) && (ok ==> Sinking(a[..], lo, pj - 1, hi, cmp))
  {
    hide TotalPreorder, Sinking, Rearranged;
    ghost var s := a[..];
    if ok { SinkOne(s, lo, pj, hi, cmp); }
    SwappedIn(s0, s, lo, hi, pj);
    Swap(a, pj, pj - 1);
    assert a[..] == s[pj := s[pj - 1]][pj - 1 := s[pj]];
  }

  lemma StartSinking<T(!new)>(s: seq<T>, lo: nat, pi: nat, cmp: (T, T) -> int)
    requires SortedIn(s, lo, pi, cmp) && lo <= pi < |s|
    ensures Sinking(s, lo, pi, pi + 1, cmp)
  {
  }

  lemma SwappedIn<T(!new)>(s0: seq<T>, s: seq<T>, lo: nat, hi: nat, k: nat)
    requires Rearranged(s0, s, lo, hi) && lo < k < hi <= |s|
    ensures Rearranged(s0, s[k := s[k - 1]][k - 1 := s[k]], lo, hi)
  {
  }

  /* ----- heapsort; `h` is the segment that is being sorted ----- */

  function Parent(k: int): int { (k - 1) / 2 }

  /** Parents from `from` on are not smaller than their children below `n`. */
  ghost predicate Heap<T(!new)>(h: seq<T>, from: int, n: nat, cmp: (T, T) -> int) {
    n <= |h| && forall k :: 0 < k < n && from <= Parent(k) ==> cmp(h[Parent(k)], h[k]) >= 0
  }

  /** The same except at `r`, whose children are no larger than its parent. */
  ghost predicate HeapBut<T(!new)>(h: seq<T>, from: int, r: nat, n: nat, cmp: (T, T) -> int) {
    && n <= |h| && from <= r < n
    && (forall k :: 0 < k < n && from <= Parent(k) && Parent(k) != r ==> cmp(h[Parent(k)], h[k]) >= 0)
    && (r > 0 && from <= Parent(r) ==> forall k :: 0 < k < n && Parent(k) == r ==> cmp(h[Parent(r)], h[k]) >= 0)
  }

  /** The element at `c` is no smaller than the children of `r`. */
  ghost predicate OverChildren<T(!new)>(h: seq<T>, c: nat, r: nat, n: nat, cmp: (T, T) -> int) {
    c < n <= |h| && forall k :: 0 < k < n && Parent(k) == r ==> cmp(h[c], h[k]) >= 0
  }

  lemma HeapDone<T(!new)>(h: seq<T>, from: int, r: nat, n: nat, cmp: (T, T) -> int)
    requires HeapBut(h, from, r, n, cmp) && OverChildren(h, r, r, n, cmp)
    ensures Heap(h, from, n, cmp)
  {
    hide Parent;
  }

  lemma Children(r: nat, k: nat)
    requires k > 0
    ensures Parent(k) == r <==> k == 2 * r + 1 || k == 2 * r + 2
    ensures 0 <= Parent(k) < k
  {
  }

  /** Swapping the element at `r` with its larger child `c` moves the exception down. */
  lemma SiftOne<T(!new)>(h: seq<T>, from: int, r: nat, c: nat, n: nat, cmp: (T, T) -> int)
    requires TotalPreorder(cmp) && HeapBut(h, from, r, n, cmp) && OverChildren(h, c, r, n, cmp)
    requires 0 < c < n && Parent(c) == r && cmp(h[r], h[c]) <= 0
    ensures HeapBut(h[r := h[c]][c := h[r]], from, c, n, cmp)
  {
    hide Parent, TotalPreorder;
    var t := h[r := h[c]][c := h[r]];
    Children(r, c);
    forall k: nat | 0 < k < n ensures 0 <= Parent(k) < k { Children(0, k); }
    forall k | 0 < k < n && from <= Parent(k) && Parent(k) != c ensures cmp(t[Parent(k)], t[k]) >= 0 {
      Children(c, k);
      Flip(cmp, h[r], h[c]);
      if Parent(k) != r && k == r { assert cmp(h[Parent(r)], h[c]) >= 0; }
    }
    forall k | 0 < k < n && Parent(k) == c ensures cmp(t[r], t[k]) >= 0 {
      Children(c, k);
    }
  }

  lemma Flip<T(!new)>(cmp: (T, T) -> int, x: T, y: T)
    requires TotalPreorder(cmp)
    ensures cmp(x, y) <= 0 <==> cmp(y, x) >= 0
    ensures cmp(x, x) == 0
  {
  }

  lemma Over<T(!new)>(cmp: (T, T) -> int, x: T, y: T, z: T)
    requires TotalPreorder(cmp) && cmp(x, y) >= 0 && cmp(y, z) >= 0
    ensures cmp(x, z) >= 0
  {
  }

  /** The inner loop of heapsortx: let the element at `i` sink into the heap below it. */
  method SiftDown<T(!new)>(a: array<T>, lo: nat, i: nat, n: nat, cmp: (T, T) -> int)
    requires lo + n <= a.Length && i < n
    modifies a
    ensures Rearranged(old(a[..]), a[..], lo, lo + n)
    ensures TotalPreorder(cmp) && HeapBut(old(a[lo..lo + n]), i, i, n, cmp) ==> Heap(a[lo..lo + n], i, n, cmp)
  {
    hide TotalPreorder, Heap, HeapBut, OverChildren, Rearranged, Parent;
    var r := i;
    ghost var ok := TotalPreorder(cmp) && HeapBut(a[lo..lo + n], i, i, n, cmp);
    RearrangedSelf(a[..], lo, lo + n);
    while true
      invariant i <= r < n
      invariant Rearranged(old(a[..]), a[..], lo, lo + n)
      invariant ok ==> HeapBut(a[lo..lo + n], i, r, n, cmp)
      decreases n - r
    {
      var c := r * 2 + 1;
      if c >= n { break; }
      if c < n - 1 && cmp(a[lo + c], a[lo + c + 1]) <= 0 { c := c + 1; }
      ghost var h := a[lo..lo + n];
      assert h[r] == a[lo + r] && h[c] == a[lo + c];
      Children(r, c);
      if ok { LargerChild(h, r, c, n, cmp); }
      if cmp(a[lo + r], a[lo + c]) > 0 {
        if ok { BiggerThanBoth(h, r, c, n, cmp); HeapDone(h, i, r, n, cmp); }
        return;
      }
      if ok { SiftOne(h, i, r, c, n, cmp); }
      SwapIn(a, lo, n, r, c, old(a[..]));
      r := c;
    }
    if ok { NoChildren(a[lo..lo + n], r, n, cmp); HeapDone(a[lo..lo + n], i, r, n, cmp); }
  }

  /** Swap two elements of a segment. */
  method SwapIn<T(!new)>(a: array<T>, lo: nat, n: nat, i: nat, j: nat, ghost s0: seq<T>)
    requires lo + n <= a.Length && i < n && j < n && Rearranged(s0, a[..], lo, lo + n)
    modifies a
    ensures var h := old(a[lo..lo + n]); a[lo..lo + n] == h[i := h[j]][j := h[i]]
    ensures Rearranged(s0, a[..], lo, lo + n)
  {
    Swap(a, lo + i, lo + j);
  }

  lemma NoChildren<T(!new)>(h: seq<T>, r: nat, n: nat, cmp: (T, T) -> int)
    requires 2 * r + 1 >= n > r && n <= |h|
    ensures OverChildren(h, r, r, n, cmp)
  {
  }

  lemma LargerChild<T(!new)>(h: seq<T>, r: nat, c: nat, n: nat, cmp: (T, T) -> int)
    requires TotalPreorder(cmp) && c < n <= |h|
    requires c == 2 * r + 1 ==> c == n - 1 || cmp(h[c], h[c + 1]) > 0
    requires c == 2 * r + 1 || (c == 2 * r + 2 && cmp(h[c - 1], h[c]) <= 0)
    ensures OverChildren(h, c, r, n, cmp)
  {
    Flip(cmp, h[c], h[c]);
    forall k | 0 < k < n && Parent(k) == r ensures cmp(h[c], h[k]) >= 0 {
      Children(r, k);
    }
  }

  lemma BiggerThanBoth<T(!new)>(h: seq<T>, r: nat, c: nat, n: nat, cmp: (T, T) -> int)
    requires TotalPreorder(cmp) && r < n <= |h| && c < n && cmp(h[r], h[c]) > 0 && OverChildren(h, c, r, n, cmp)
    ensures OverChildren(h, r, r, n, cmp)
  {
    hide Parent, TotalPreorder;
    forall k | 0 < k < n && Parent(k) == r ensures cmp(h[r], h[k]) >= 0 {
      Over(cmp, h[r], h[c], h[k]);
    }
  }

  /** The root of a heap is its maximum. */
  lemma {:induction false} RootIsMax<T(!new)>(h: seq<T>, n: nat, k: nat, cmp: (T, T) -> int)
    requires TotalPreorder(cmp) && Heap(h, 0, n, cmp) && k < n
    ensures cmp(h[k], h[0]) <= 0
    decreases k
  {
    hide TotalPreorder;
    Flip(cmp, h[k], h[0]);
    Flip(cmp, h[0], h[0]);
    if k > 0 {
      RootIsMax(h, n, (k - 1) / 2, cmp);
      Flip(cmp, h[Parent(k)], h[0]);
      Over(cmp, h[0], h[Parent(k)], h[k]);
    }
  }

  /** From position `i` on nothing is smaller than what lies in front of it. */
  ghost predicate Behind<T(!new)>(h: seq<T>, i: nat, cmp: (T, T) -> int) {
    forall p, q :: 0 <= p < q < |h| && i <= q ==> cmp(h[p], h[q]) <= 0
  }

  /** Moving the root behind the heap. */
  lemma RootMoved<T(!new)>(h: seq<T>, i: nat, cmp: (T, T) -> int)
    requires TotalPreorder(cmp) && 0 < i < |h| && Heap(h, 0, i + 1, cmp) && Behind(h, i + 1, cmp)
    ensures var t := h[0 := h[i]][i := h[0]]; HeapBut(t, 0, 0, i, cmp) && Behind(t, i, cmp)
  {
    var t := h[0 := h[i]][i := h[0]];
    forall k | 0 < k < i && Parent(k) != 0 ensures cmp(t[Parent(k)], t[k]) >= 0 {
      Children(0, k);
    }
    forall p, q | 0 <= p < q < |t| && i <= q ensures cmp(t[p], t[q]) <= 0 {
      var p1 := if p == 0 then i else if p == i then 0 else p;
      assert t[p] == h[p1];
      if q == i { RootIsMax(h, i + 1, p1, cmp); }
    }
  }

  /** Rearranging what lies in front keeps that. */
  lemma BehindKept<T(!new)>(h: seq<T>, t: seq<T>, i: nat, cmp: (T, T) -> int)
    requires Rearranged(h, t, 0, i) && i <= |h| && Behind(h, i, cmp)
    ensures Behind(t, i, cmp)
  {
    forall p, q | 0 <= p < q < |t| && i <= q ensures cmp(t[p], t[q]) <= 0 {
      if p < i { var j := RearrangedFrom(h, t, 0, i, p); }
    }
  }

  /** A segment of a rearranged sequence. */
  lemma SegmentOf<T(!new)>(s: seq<T>, t: seq<T>, lo: nat, m: nat, n: nat)
    requires Rearranged(s, t, lo, lo + m) && m <= n && lo + n <= |s|
    ensures Rearranged(s[lo..lo + n], t[lo..lo + n], 0, m) && Rearranged(s, t, lo, lo + n)
  {
    assert Rearranged(s, t, lo, lo + n);
    PartBag(s, t, lo, lo + n);
  }

  method HeapSort<T(!new)>(a: array<T>, lo: nat, n: nat, cmp: (T, T) -> int)
    requires lo + n <= a.Length
    modifies a
    ensures Rearranged(old(a[..]), a[..], lo, lo + n)
    ensures TotalPreorder(cmp) ==> SortedIn(a[..], lo, lo + n, cmp)
  {
    hide TotalPreorder, Heap, Rearranged, Behind;
    RearrangedSelf(a[..], lo, lo + n);
    if n > 1 {
      Heapify(a, lo, n, cmp);
      var i := n - 1;
      NothingBehind(a[lo..lo + n], cmp);
      while i > 0
        invariant 0 <= i < n
        invariant Rearranged(old(a[..]), a[..], lo, lo + n)
        invariant TotalPreorder(cmp) ==> Heap(a[lo..lo + n], 0, i + 1, cmp) && Behind(a[lo..lo + n], i + 1, cmp)
      {
        RemoveRoot(a, lo, i, n, cmp, old(a[..]));
        i := i - 1;
      }
      if TotalPreorder(cmp) { AllBehind(a[..], lo, n, cmp); }
    }
  }

  lemma NothingBehind<T(!new)>(h: seq<T>, cmp: (T, T) -> int)
    ensures Behind(h, |h|, cmp)
  {
  }

  lemma RearrangedSelf<T(!new)>(s: seq<T>, lo: int, hi: int)
    ensures Rearranged(s, s, lo, hi)
  {
  }

  lemma AllBehind<T(!new)>(s: seq<T>, lo: nat, n: nat, cmp: (T, T) -> int)
    requires lo + n <= |s| && Behind(s[lo..lo + n], 1, cmp)
    ensures SortedIn(s, lo, lo + n, cmp)
  {
    var h := s[lo..lo + n];
    forall i, j | lo <= i < j < lo + n ensures cmp(s[i], s[j]) <= 0 {
      assert s[i] == h[i - lo] && s[j] == h[j - lo];
    }
  }

  method Heapify<T(!new)>(a: array<T>, lo: nat, n: nat, cmp: (T, T) -> int)
    requires lo + n <= a.Length && n > 1
    modifies a
    ensures Rearranged(old(a[..]), a[..], lo, lo + n)
    ensures TotalPreorder(cmp) ==> Heap(a[lo..lo + n], 0, n, cmp)
  {
    hide TotalPreorder, Rearranged, Heap, HeapBut;
    var i := n / 2;
    RearrangedSelf(a[..], lo, lo + n);
    LeavesAreHeap(a[lo..lo + n], i, n, cmp);
    while i > 0
      invariant 0 <= i <= n / 2
      invariant Rearranged(old(a[..]), a[..], lo, lo + n)
      invariant TotalPreorder(cmp) ==> Heap(a[lo..lo + n], i, n, cmp)
    {
      i := i - 1;
      ghost var s := a[..];
      if TotalPreorder(cmp) { NextRoot(a[lo..lo + n], i, n, cmp); }
      SiftDown(a, lo, i, n, cmp);
      RearrangedTwice(old(a[..]), s, a[..], lo, lo + n);
    }
  }

  lemma LeavesAreHeap<T(!new)>(h: seq<T>, i: nat, n: nat, cmp: (T, T) -> int)
    requires 2 * i + 1 >= n && n <= |h|
    ensures Heap(h, i, n, cmp)
  {
  }

  lemma NextRoot<T(!new)>(h: seq<T>, i: nat, n: nat, cmp: (T, T) -> int)
    requires Heap(h, i + 1, n, cmp) && i < n
    ensures HeapBut(h, i, i, n, cmp)
  {
  }

  method RemoveRoot<T(!new)>(a: array<T>, lo: nat, i: nat, n: nat, cmp: (T, T) -> int, ghost s0: seq<T>)
    requires lo + n <= a.Length && 0 < i < n && Rearranged(s0, a[..], lo, lo + n)
    modifies a
    ensures Rearranged(s0, a[..], lo, lo + n)
    ensures TotalPreorder(cmp) && Heap(old(a[lo..lo + n]), 0, i + 1, cmp) && Behind(old(a[lo..lo + n]), i + 1, cmp) ==>
              Heap(a[lo..lo + n], 0, i, cmp) && Behind(a[lo..lo + n], i, cmp)
  {
    hide TotalPreorder, Heap, HeapBut, Behind, Rearranged;
    ghost var ok := TotalPreorder(cmp) && Heap(a[lo..lo + n], 0, i + 1, cmp) && Behind(a[lo..lo + n], i + 1, cmp);
    if ok { RootMoved(a[lo..lo + n], i, cmp); }
    SwapIn(a, lo, n, 0, i, s0);
    ghost var s := a[..];
    FrontOf(s, lo, i, n);
    if ok { HeapFront(s[lo..lo + n], i, i, cmp); }
    SiftDown(a, lo, 0, i, cmp);
    SegmentOf(s, a[..], lo, i, n);
    RearrangedTwice(s0, s, a[..], lo, lo + n);
    if ok {
      BehindKept(s[lo..lo + n], a[lo..lo + n], i, cmp);
      FrontOf(a[..], lo, i, n);
      HeapFront(a[lo..lo + n], i, i, cmp);
    }
  }

  lemma FrontOf<T>(s: seq<T>, lo: nat, i: nat, n: nat)
    requires i <= n && lo + n <= |s|
    ensures s[lo..lo + n][..i] == s[lo..lo + i]
  {
  }

  /** Only the front of the segment matters. */
  lemma HeapFront<T(!new)>(h: seq<T>, m: nat, n: nat, cmp: (T, T) -> int)
    requires n <= m <= |h|
    ensures HeapBut(h[..m], 0, 0, n, cmp) == HeapBut(h, 0, 0, n, cmp)
    ensures Heap(h[..m], 0, n, cmp) == Heap(h, 0, n, cmp)
  {
    forall k: nat | 0 < k < n ensures 0 <= Parent(k) < k { Children(0, k); }
  }

  /* ----- the three-way partition; `h` is the segment, `p` the pivot ----- */

  function Med3<T>(a: T, b: T, c: T, cmp: (T, T) -> int): int {
    if cmp(a, b) < 0 then
      if cmp(b, c) < 0 then 1 else if cmp(a, c) < 0 then 2 else 0
    else
      if cmp(b, c) > 0 then 1 else if cmp(a, c) < 0 then 0 else 2
  }

  /** It is the index of an element that lies between the two others. */
  lemma Med3IsMedian<T(!new)>(a: T, b: T, c: T, cmp: (T, T) -> int)
    requires TotalPreorder(cmp)
    ensures var k := Med3(a, b, c, cmp);
            var (x, m, y) := if k == 0 then (b, a, c) else if k == 1 then (a, b, c) else (a, c, b);
            && 0 <= k <= 2
            && ((cmp(x, m) <= 0 && cmp(m, y) <= 0) || (cmp(y, m) <= 0 && cmp(m, x) <= 0))
  {
  }

  ghost predicate Low<T(!new)>(h: seq<T>, from: int, to: int, p: T, cmp: (T, T) -> int) {
    forall k :: 0 <= from <= k < to <= |h| ==> cmp(p, h[k]) > 0
  }

  ghost predicate Same<T(!new)>(h: seq<T>, from: int, to: int, p: T, cmp: (T, T) -> int) {
    forall k :: 0 <= from <= k < to <= |h| ==> h[k] == p || cmp(p, h[k]) == 0
  }

  ghost predicate High<T(!new)>(h: seq<T>, from: int, to: int, p: T, cmp: (T, T) -> int) {
    forall k :: 0 <= from <= k < to <= |h| ==> cmp(p, h[k]) < 0
  }

  /** Equal to the pivot, smaller, not yet seen (from `i` to `b`), larger, equal. */
  ghost predicate Zones<T(!new)>(h: seq<T>, lt: int, i: int, b: int, gt: int, p: T, cmp: (T, T) -> int) {
    && 1 <= lt <= i <= b <= gt <= |h| && h[0] == p
    && Same(h, 0, lt, p, cmp) && Low(h, lt, i, p, cmp) && High(h, b, gt, p, cmp) && Same(h, gt, |h|, p, cmp)
  }

  function Swapped<T>(h: seq<T>, i: nat, j: nat): (t: seq<T>)
    requires i < |h| && j < |h|
  {
    h[i := h[j]][j := h[i]]
  }

  lemma NextLow<T(!new)>(h: seq<T>, lt: int, i: int, b: int, gt: int, p: T, cmp: (T, T) -> int)
    requires Zones(h, lt, i, b, gt, p, cmp) && i < b && cmp(p, h[i]) >= 0
    ensures cmp(p, h[i]) > 0 ==> Zones(h, lt, i + 1, b, gt, p, cmp)
    ensures cmp(p, h[i]) == 0 ==> Zones(Swapped(h, lt, i), lt + 1, i + 1, b, gt, p, cmp)
  {
  }

  lemma NextHigh<T(!new)>(h: seq<T>, lt: int, i: int, j: int, gt: int, p: T, cmp: (T, T) -> int)
    requires Zones(h, lt, i, j + 1, gt, p, cmp) && i <= j && cmp(p, h[j]) <= 0
    ensures cmp(p, h[j]) < 0 ==> Zones(h, lt, i, j, gt, p, cmp)
    ensures cmp(p, h[j]) == 0 ==> Zones(Swapped(h, gt - 1, j), lt, i, j, gt - 1, p, cmp)
  {
  }

  lemma Exchange<T(!new)>(h: seq<T>, lt: int, i: int, j: int, gt: int, p: T, cmp: (T, T) -> int)
    requires Zones(h, lt, i, j + 1, gt, p, cmp) && i < j && cmp(p, h[i]) < 0 && cmp(p, h[j]) > 0
    ensures Zones(Swapped(h, i, j), lt, i + 1, j, gt, p, cmp)
  {
  }

  /** The scan from both ends; the pivot is the first element of the segment. */
  method ScanSegment<T(!new)>(a: array<T>, lo: nat, n: nat, cmp: (T, T) -> int, ghost s0: seq<T>)
    returns (lt: nat, i: nat, gt: nat)
    requires 0 < n && lo + n <= a.Length && Rearranged(s0, a[..], lo, lo + n)
    modifies a
    ensures Rearranged(s0, a[..], lo, lo + n)
    ensures Zones(a[lo..lo + n], lt, i, i, gt, old(a[lo]), cmp)
  {
    hide Rearranged, Zones;
    ghost var p := a[lo];
    i, lt, gt := 1, 1, n;
    var j: int := n;
    StartZones(a[lo..lo + n], cmp);
    while true
      invariant Shape(lt, i, j, gt, n)
      invariant Rearranged(s0, a[..], lo, lo + n)
      invariant Zones(a[lo..lo + n], lt, i, j, gt, p, cmp)
      decreases n - i
    {
      i, lt := ScanUp(a, lo, n, i, lt, j, gt, p, cmp, s0);
      ghost var stop := i;
      j, gt := ScanDown(a, lo, n, i, lt, j, gt, p, cmp, s0);
      if i >= j { break; }
      ghost var h := a[lo..lo + n];
      assert h[i] == a[lo + i] && h[j] == a[lo + j];
      Exchange(h, lt, i, j, gt, p, cmp);
      SwapIn(a, lo, n, i, j, s0);
      i := i + 1;
    }
  }

  predicate Shape(lt: nat, i: nat, j: int, gt: nat, n: nat) { 1 <= lt <= i <= j <= gt <= n }

  lemma StartZones<T(!new)>(h: seq<T>, cmp: (T, T) -> int)
    requires h != []
    ensures Zones(h, 1, 1, |h|, |h|, h[0], cmp)
  {
  }

  method ScanUp<T(!new)>(a: array<T>, lo: nat, n: nat, i0: nat, lt0: nat, j: int, gt: nat, ghost p: T,
                         cmp: (T, T) -> int, ghost s0: seq<T>)
    returns (i: nat, lt: nat)
    requires lo + n <= a.Length && Shape(lt0, i0, j, gt, n) && Rearranged(s0, a[..], lo, lo + n)
    requires Zones(a[lo..lo + n], lt0, i0, j, gt, p, cmp)
    modifies a
    ensures i0 <= i && Shape(lt, i, j, gt, n) && Rearranged(s0, a[..], lo, lo + n)
    ensures Zones(a[lo..lo + n], lt, i, j, gt, p, cmp)
    ensures i < j ==> cmp(p, a[lo + i]) < 0
  {
    hide Rearranged, Zones;
    i, lt := i0, lt0;
    PivotFirst(a[lo..lo + n], lt, i, j, gt, p, cmp);
    while i < j && cmp(a[lo], a[lo + i]) >= 0
      invariant i0 <= i && Shape(lt, i, j, gt, n) && a[lo] == p
      invariant Rearranged(s0, a[..], lo, lo + n)
      invariant Zones(a[lo..lo + n], lt, i, j, gt, p, cmp)
    {
      ghost var h := a[lo..lo + n];
      assert h[i] == a[lo + i];
      NextLow(h, lt, i, j, gt, p, cmp);
      if cmp(a[lo], a[lo + i]) == 0 {
        SwapIn(a, lo, n, lt, i, s0);
        lt := lt + 1;
      }
      i := i + 1;
      PivotFirst(a[lo..lo + n], lt, i, j, gt, p, cmp);
      assert a[lo..lo + n][0] == a[lo];
    }
  }

  lemma PivotFirst<T(!new)>(h: seq<T>, lt: int, i: int, b: int, gt: int, p: T, cmp: (T, T) -> int)
    requires Zones(h, lt, i, b, gt, p, cmp)
    ensures |h| > 0 && h[0] == p
  {
  }

  method ScanDown<T(!new)>(a: array<T>, lo: nat, n: nat, i: nat, lt: nat, j0: int, gt0: nat, ghost p: T,
                           cmp: (T, T) -> int, ghost s0: seq<T>)
    returns (j: int, gt: nat)
    requires lo + n <= a.Length && Shape(lt, i, j0, gt0, n) && Rearranged(s0, a[..], lo, lo + n)
    requires Zones(a[lo..lo + n], lt, i, j0, gt0, p, cmp)
    requires i < j0 ==> cmp(p, a[lo + i]) < 0
    modifies a
    ensures j < j0 && Rearranged(s0, a[..], lo, lo + n)
    ensures if i < j then Shape(lt, i, j + 1, gt, n) && cmp(p, a[lo + i]) < 0 && cmp(p, a[lo + j]) > 0
                          && Zones(a[lo..lo + n], lt, i, j + 1, gt, p, cmp)
            else Zones(a[lo..lo + n], lt, i, i, gt, p, cmp)
  {
    hide Rearranged, Zones;
    j, gt := j0 - 1, gt0;
    PivotFirst(a[lo..lo + n], lt, i, j0, gt, p, cmp);
    assert a[lo..lo + n][0] == a[lo];
    while i < j && cmp(a[lo], a[lo + j]) <= 0
      invariant i <= j + 1 && j < j0 && Shape(lt, i, j + 1, gt, n) && a[lo] == p
      invariant i < j0 ==> i <= j && cmp(p, a[lo + i]) < 0
      invariant Rearranged(s0, a[..], lo, lo + n)
      invariant Zones(a[lo..lo + n], lt, i, j + 1, gt, p, cmp)
    {
      ghost var h := a[lo..lo + n];
      assert h[j] == a[lo + j] && h[i] == a[lo + i];
      NextHigh(h, lt, i, j, gt, p, cmp);
      if cmp(a[lo], a[lo + j]) == 0 {
        gt := gt - 1;
        SwapIn(a, lo, n, gt, j, s0);
        assert a[lo..lo + n][i] == h[i];
      }
      j := j - 1;
      PivotFirst(a[lo..lo + n], lt, i, j + 1, gt, p, cmp);
      assert a[lo..lo + n][0] == a[lo] && a[lo..lo + n][i] == a[lo + i];
    }
    if i == j {
      assert a[lo..lo + n][i] == a[lo + i];
      NextHigh(a[lo..lo + n], lt, i, j, gt, p, cmp);
    }
  }

  /* ----- gathering the elements equal to the pivot in the middle ----- */

  /** Two blocks of a segment exchanged. */
  ghost predicate BlocksSwapped<T(!new)>(h: seq<T>, t: seq<T>, x: nat, y: nat, span: nat) {
    && |t| == |h| && x + span <= y && y + span <= |h|
    && (forall k :: x <= k < x + span ==> t[k] == h[y + (k - x)])
    && (forall k :: y <= k < y + span ==> t[k] == h[x + (k - y)])
    && (forall k :: 0 <= k < |h| && !(x <= k < x + span) && !(y <= k < y + span) ==> t[k] == h[k])
  }

  method SwapBlock<T(!new)>(a: array<T>, lo: nat, n: nat, x: nat, y: nat, span: nat, ghost s0: seq<T>)
    requires lo + n <= a.Length && x + span <= y && y + span <= n && Rearranged(s0, a[..], lo, lo + n)
    modifies a
    ensures Rearranged(s0, a[..], lo, lo + n)
    ensures BlocksSwapped(old(a[lo..lo + n]), a[lo..lo + n], x, y, span)
  {
    hide Rearranged;
    var k := 0;
    while k < span
      invariant 0 <= k <= span
      invariant Rearranged(s0, a[..], lo, lo + n)
      invariant BlocksSwapped(old(a[lo..lo + n]), a[lo..lo + n], x, y, k) || k == 0
      invariant k == 0 ==> a[lo..lo + n] == old(a[lo..lo + n])
    {
      BlockStep(old(a[lo..lo + n]), a[lo..lo + n], x, y, k);
      SwapIn(a, lo, n, x + k, y + k, s0);
      k := k + 1;
    }
  }

  lemma BlockStep<T(!new)>(h: seq<T>, t: seq<T>, x: nat, y: nat, k: nat)
    requires x + k < y && y + k < |h| && |t| == |h|
    requires BlocksSwapped(h, t, x, y, k) || (k == 0 && t == h)
    ensures BlocksSwapped(h, Swapped(t, x + k, y + k), x, y, k + 1)
  {
  }

  ghost predicate Parted<T(!new)>(h: seq<T>, lt: int, gt: int, p: T, cmp: (T, T) -> int) {
    && 0 <= lt < gt <= |h|
    && Low(h, 0, lt, p, cmp) && Same(h, lt, gt, p, cmp) && High(h, gt, |h|, p, cmp)
  }

  function Min(a: nat, b: nat): nat { if a < b then a else b }

  lemma GatherLeft<T(!new)>(h: seq<T>, t: seq<T>, lt: int, i: int, gt: int, p: T, cmp: (T, T) -> int)
    requires Zones(h, lt, i, i, gt, p, cmp)
    requires var span := Min(lt, i - lt); BlocksSwapped(h, t, 0, i - span, span)
    ensures Low(t, 0, i - lt, p, cmp) && Same(t, i - lt, i, p, cmp)
    ensures High(t, i, gt, p, cmp) && Same(t, gt, |t|, p, cmp)
  {
  }

  lemma GatherRight<T(!new)>(h: seq<T>, t: seq<T>, lt: int, i: int, gt: int, p: T, cmp: (T, T) -> int)
    requires 0 <= lt < i <= gt <= |h|
    requires Low(h, 0, lt, p, cmp) && Same(h, lt, i, p, cmp) && High(h, i, gt, p, cmp) && Same(h, gt, |h|, p, cmp)
    requires var span := Min(|h| - gt, gt - i); BlocksSwapped(h, t, i, |h| - span, span)
    ensures Parted(t, lt, |h| - (gt - i), p, cmp)
  {
  }

  /** One pass over a segment: smaller elements in front, larger ones behind. */
  method Partition<T(!new)>(a: array<T>, lo: nat, n: nat, cmp: (T, T) -> int) returns (lt: nat, gt: nat, ghost p: T)
    requires n > 6 && lo + n <= a.Length
    modifies a
    ensures Rearranged(old(a[..]), a[..], lo, lo + n)
    ensures Parted(a[lo..lo + n], lt, gt, p, cmp)
  {
    hide Rearranged, Zones, BlocksSwapped, Low, Same, High, Parted, Med3;
    Med3Range(a[lo + n / 4], a[lo + 2 * (n / 4)], a[lo + 3 * (n / 4)], cmp);
    ghost var s0 := a[..];
    RearrangedSelf(s0, lo, lo + n);
    var m4 := n / 4;
    var m := (1 + Med3(a[lo + m4], a[lo + 2 * m4], a[lo + 3 * m4], cmp)) * m4;
    SwapIn(a, lo, n, 0, m, s0);
    p := a[lo];
    var i;
    lt, i, gt := ScanSegment(a, lo, n, cmp, s0);
    lt, gt := Gather(a, lo, n, lt, i, gt, cmp, p, s0);
  }

  /** Move the elements that are identical to the pivot to the middle. */
  method Gather<T(!new)>(a: array<T>, lo: nat, n: nat, lt0: nat, i: nat, gt0: nat, cmp: (T, T) -> int, ghost p: T,
                         ghost s0: seq<T>)
    returns (lt: nat, gt: nat)
    requires lo + n <= a.Length && Rearranged(s0, a[..], lo, lo + n) && Zones(a[lo..lo + n], lt0, i, i, gt0, p, cmp)
    modifies a
    ensures Rearranged(s0, a[..], lo, lo + n) && Parted(a[lo..lo + n], lt, gt, p, cmp)
  {
    hide Rearranged, Zones, BlocksSwapped, Low, Same, High, Parted;
    ghost var h := a[lo..lo + n];
    ZoneShape(h, lt0, i, gt0, p, cmp);
    var span := Min(lt0, i - lt0);
    SwapBlock(a, lo, n, 0, i - span, span, s0);
    GatherLeft(h, a[lo..lo + n], lt0, i, gt0, p, cmp);
    lt := i - lt0;
    span := Min(n - gt0, gt0 - i);
    h := a[lo..lo + n];
    SwapBlock(a, lo, n, i, n - span, span, s0);
    GatherRight(h, a[lo..lo + n], lt, i, gt0, p, cmp);
    gt := n - (gt0 - i);
  }

  lemma Med3Range<T>(a: T, b: T, c: T, cmp: (T, T) -> int)
    ensures 0 <= Med3(a, b, c, cmp) <= 2
  {
  }

  lemma ZoneShape<T(!new)>(h: seq<T>, lt: int, i: int, gt: int, p: T, cmp: (T, T) -> int)
    requires Zones(h, lt, i, i, gt, p, cmp)
    ensures 1 <= lt <= i <= gt <= |h|
  {
  }

  /* ----- the pending segments ----- */

  datatype Segment = Segment(base: nat, count: nat, depth: nat)

  const MAX_DEPTH: nat := 50

  predicate Inside(g: Segment, k: int) { g.base <= k < g.base + g.count }

  /** Which pending segment a position belongs to; negative if none. */
  ghost predicate Owned(owner: seq<int>, pending: seq<Segment>) {
    && (forall k :: 0 <= k < |owner| ==> owner[k] < |pending|)
    && (forall e :: 0 <= e < |pending| ==> pending[e].base + pending[e].count <= |owner|)
    && (forall e, k :: 0 <= e < |pending| && 0 <= k < |owner| ==> (owner[k] == e <==> Inside(pending[e], k)))
  }

  /** Only elements of one pending segment may still be out of order. */
  ghost predicate Apart<T(!new)>(s: seq<T>, owner: seq<int>, cmp: (T, T) -> int)
    requires |owner| == |s|
  {
    forall i, j :: 0 <= i < j < |s| && (owner[i] != owner[j] || owner[i] < 0) ==> cmp(s[i], s[j]) <= 0
  }

  ghost predicate Progress<T(!new)>(s0: seq<T>, s: seq<T>, owner: seq<int>, pending: seq<Segment>, cmp: (T, T) -> int) {
    && |owner| == |s| && Owned(owner, pending)
    && Rearranged(s0, s, 0, |s|)
    && (TotalPreorder(cmp) ==> Apart(s, owner, cmp))
  }

  lemma Widen<T(!new)>(s0: seq<T>, s: seq<T>, t: seq<T>, lo: int, hi: int)
    requires Rearranged(s0, s, 0, |s|) && Rearranged(s, t, lo, hi)
    ensures Rearranged(s0, t, 0, |t|)
  {
  }

  /** Positions outside a rearranged segment stay in order with those inside. */
  lemma OutsideKept<T(!new)>(s: seq<T>, t: seq<T>, owner: seq<int>, owner': seq<int>, id: nat, lo: nat, hi: nat,
                             cmp: (T, T) -> int)
    requires |owner| == |owner'| == |s| && Apart(s, owner, cmp) && Rearranged(s, t, lo, hi) && lo <= hi <= |s|
    requires forall k :: 0 <= k < |s| ==> (owner[k] == id <==> lo <= k < hi)
    requires forall k :: 0 <= k < |s| && !(lo <= k < hi) ==> owner'[k] == owner[k]
    requires forall i, j :: lo <= i < j < hi && (owner'[i] != owner'[j] || owner'[i] < 0) ==> cmp(t[i], t[j]) <= 0
    ensures Apart(t, owner', cmp)
  {
    forall i, j | 0 <= i < j < |t| && (owner'[i] != owner'[j] || owner'[i] < 0) ensures cmp(t[i], t[j]) <= 0 {
      if lo <= i < hi && !(lo <= j < hi) {
        var i1 := RearrangedFrom(s, t, lo, hi, i);
        assert owner[i1] == id && owner[j] != id;
      } else if !(lo <= i < hi) && lo <= j < hi {
        var j1 := RearrangedFrom(s, t, lo, hi, j);
        assert owner[j1] == id && owner[i] != id;
      } else if !(lo <= i < hi) {
        assert owner[i] == owner'[i] && owner[j] == owner'[j];
      }
    }
  }

  /** The segment that is being worked on has been sorted. */
  lemma SegmentSorted<T(!new)>(s0: seq<T>, s: seq<T>, t: seq<T>, owner: seq<int>, rest: seq<Segment>, g: Segment,
                               cmp: (T, T) -> int)
    returns (owner': seq<int>)
    requires Progress(s0, s, owner, rest + [g], cmp) && Rearranged(s, t, g.base, g.base + g.count)
    requires TotalPreorder(cmp) ==> SortedIn(t, g.base, g.base + g.count, cmp)
    ensures Progress(s0, t, owner', rest, cmp)
  {
    hide TotalPreorder, Rearranged;
    var pending := rest + [g];
    assert pending[|rest|] == g;
    owner' := seq(|owner|, k requires 0 <= k < |owner| => if Inside(g, k) then -1 else owner[k]);
    Widen(s0, s, t, g.base, g.base + g.count);
    RearrangedLength(s, t, g.base, g.base + g.count);
    forall e, k | 0 <= e < |rest| && 0 <= k < |owner'| ensures owner'[k] == e <==> Inside(rest[e], k) {
      assert pending[e] == rest[e];
      assert owner[k] == |rest| <==> Inside(g, k);
    }
    forall e | 0 <= e < |rest| ensures rest[e].base + rest[e].count <= |owner'| { assert pending[e] == rest[e]; }
    forall k | 0 <= k < |owner'| ensures owner'[k] < |rest| { assert owner[k] == |rest| <==> Inside(g, k); }
    if TotalPreorder(cmp) {
      forall k | 0 <= k < |s|
        ensures owner[k] == |rest| <==> g.base <= k < g.base + g.count
      {
        assert Inside(g, k) == (owner[k] == |rest|);
      }
      OutsideKept(s, t, owner, owner', |rest|, g.base, g.base + g.count, cmp);
    }
  }

  lemma RearrangedLength<T(!new)>(s: seq<T>, t: seq<T>, lo: int, hi: int)
    requires Rearranged(s, t, lo, hi)
    ensures |t| == |s|
  {
  }

  /** Nothing is left of a segment. */
  lemma SegmentEmpty<T(!new)>(s0: seq<T>, s: seq<T>, owner: seq<int>, rest: seq<Segment>, g: Segment,
                              cmp: (T, T) -> int)
    requires Progress(s0, s, owner, rest, cmp) && g.count == 0 && g.base <= |s|
    ensures Progress(s0, s, owner, rest + [g], cmp)
  {
    hide TotalPreorder, Rearranged, Apart;
    var pending := rest + [g];
    forall e, k | 0 <= e < |pending| && 0 <= k < |owner| ensures owner[k] == e <==> Inside(pending[e], k) {
      if e < |rest| { assert pending[e] == rest[e]; }
    }
  }

  /** The parts of a partitioned segment are in order with each other. */
  lemma PartsInOrder<T(!new)>(h: seq<T>, lt: int, gt: int, p: T, i: int, j: int, cmp: (T, T) -> int)
    requires TotalPreorder(cmp) && Parted(h, lt, gt, p, cmp) && 0 <= i < j < |h|
    requires !(j < lt) && !(gt <= i)
    ensures cmp(h[i], h[j]) <= 0
  {
    assert cmp(h[i], p) <= 0;
    assert cmp(p, h[j]) <= 0;
  }

  /** The segment has been partitioned: `a` and `b` are its outer parts, in the order
      in which they become pending. */
  lemma SegmentSplit<T(!new)>(s0: seq<T>, s: seq<T>, t: seq<T>, owner: seq<int>, rest: seq<Segment>, g: Segment,
                              a: Segment, b: Segment,
                              lt: nat, gt: nat, p: T, cmp: (T, T) -> int)
    returns (owner': seq<int>)
    requires Progress(s0, s, owner, rest + [g], cmp) && Rearranged(s, t, g.base, g.base + g.count)
    requires g.base + g.count <= |s| && Parted(t[g.base..g.base + g.count], lt, gt, p, cmp)
    requires || (a.base == g.base && a.count == lt && b.base == g.base + gt && b.count == g.count - gt)
             || (b.base == g.base && b.count == lt && a.base == g.base + gt && a.count == g.count - gt)
    ensures Progress(s0, t, owner', rest + [a, b], cmp)
  {
    hide TotalPreorder, Rearranged, Parted;
    var old_, new_ := rest + [g], rest + [a, b];
    assert old_[|rest|] == g && new_[|rest|] == a && new_[|rest| + 1] == b;
    RearrangedLength(s, t, g.base, g.base + g.count);
    PartedShape(t[g.base..g.base + g.count], lt, gt, p, cmp);
    owner' := seq(|owner|, k requires 0 <= k < |owner| =>
      if !Inside(g, k) then owner[k] else if Inside(a, k) then |rest| else if Inside(b, k) then |rest| + 1 else -1);
    Widen(s0, s, t, g.base, g.base + g.count);
    forall k | 0 <= k < |owner| ensures owner[k] == |rest| <==> Inside(g, k) { assert old_[|rest|] == g; }
    forall e, k | 0 <= e < |new_| && 0 <= k < |owner'| ensures owner'[k] == e <==> Inside(new_[e], k) {
      if e < |rest| { assert old_[e] == new_[e]; assert owner[k] == e <==> Inside(old_[e], k); }
    }
    forall e | 0 <= e < |new_| ensures new_[e].base + new_[e].count <= |owner'| {
      if e < |rest| { assert old_[e] == new_[e]; }
    }
    if TotalPreorder(cmp) { SplitApart(s, t, owner, owner', |rest|, g, a, b, lt, gt, p, cmp); }
  }

  lemma PartedShape<T(!new)>(h: seq<T>, lt: nat, gt: nat, p: T, cmp: (T, T) -> int)
    requires Parted(h, lt, gt, p, cmp)
    ensures lt < gt <= |h|
  {
  }

  lemma SplitApart<T(!new)>(s: seq<T>, t: seq<T>, owner: seq<int>, owner': seq<int>, id: nat, g: Segment, a: Segment,
                            b: Segment,
                            lt: nat, gt: nat, p: T, cmp: (T, T) -> int)
    requires TotalPreorder(cmp) && |owner| == |owner'| == |s| && Apart(s, owner, cmp)
    requires Rearranged(s, t, g.base, g.base + g.count) && g.base + g.count <= |s| == |t|
    requires Parted(t[g.base..g.base + g.count], lt, gt, p, cmp) && lt < gt <= g.count
    requires || (a.base == g.base && a.count == lt && b.base == g.base + gt && b.count == g.count - gt)
             || (b.base == g.base && b.count == lt && a.base == g.base + gt && a.count == g.count - gt)
    requires forall k :: 0 <= k < |owner| ==> (owner[k] == id <==> Inside(g, k))
    requires forall k :: 0 <= k < |owner| ==>
               owner'[k] == if !Inside(g, k) then owner[k] else if Inside(a, k) then id else if Inside(b, k) then
                 id + 1 else -1
    ensures Apart(t, owner', cmp)
  {
    hide TotalPreorder, Rearranged, Parted, Apart;
    var lo, hi := g.base, g.base + g.count;
    forall i, j | lo <= i < j < hi && (owner'[i] != owner'[j] || owner'[i] < 0) ensures cmp(t[i], t[j]) <= 0 {
      assert t[lo..hi][i - lo] == t[i] && t[lo..hi][j - lo] == t[j];
      PartsInOrder(t[lo..hi], lt, gt, p, i - lo, j - lo, cmp);
    }
    OutsideKept(s, t, owner, owner', id, lo, hi, cmp);
  }

  lemma AllSorted<T(!new)>(s0: seq<T>, s: seq<T>, owner: seq<int>, cmp: (T, T) -> int)
    requires Progress(s0, s, owner, [], cmp)
    ensures multiset(s) == multiset(s0) && (TotalPreorder(cmp) ==> Sorted(s, cmp))
  {
    hide TotalPreorder;
  }

  lemma AllPending<T(!new)>(s: seq<T>, cmp: (T, T) -> int) returns (owner: seq<int>)
    ensures Progress(s, s, owner, [Segment(0, |s|, 0)], cmp)
  {
    hide TotalPreorder;
    owner := seq(|s|, k => 0);
  }

  /* ----- the explicit stack ----- */

  /** Elements still to be looked at, plus one for every stacked segment. */
  ghost function Weight(pending: seq<Segment>): nat
    decreases |pending|
  {
    if pending == [] then 0 else Weight(pending[..|pending| - 1]) + pending[|pending| - 1].count + 1
  }

  lemma WeightSnoc(pending: seq<Segment>, g: Segment)
    ensures Weight(pending + [g]) == Weight(pending) + g.count + 1
  {
    assert (pending + [g])[..|pending|] == pending;
  }

  /** Slot `e` of the stack holds a segment at least `e` levels deep. */
  ghost predicate Deep(stack: seq<Segment>) {
    forall e :: 0 <= e < |stack| ==> e <= stack[e].depth <= MAX_DEPTH
  }

  class Sorter<T(!new)> {
    const a: array<T>
    const cmp: (T, T) -> int
    const stack: array<Segment>
    var sp: nat

    ghost predicate Valid()
      reads this, stack
    {
      stack.Length == MAX_DEPTH && sp <= MAX_DEPTH && Deep(stack[..sp])
    }

    constructor (base: array<T>, order: (T, T) -> int)
      ensures Valid() && a == base && cmp == order && sp == 0 && fresh(stack) && stack.Length == 50
    {
      a, cmp := base, order;
      stack := new Segment[MAX_DEPTH](i => Segment(0, 0, 0));
      sp := 0;
    }

    /** The slot is always there: a segment that is pushed on top of `sp` others is at
        least `sp + 1` levels deep (but for the first), and none is deeper than fifty. */
    method Push(g: Segment)
      requires Valid() && sp <= g.depth <= MAX_DEPTH && sp < MAX_DEPTH
      modifies this`sp, stack
      ensures Valid() && stack[..sp] == old(stack[..sp]) + [g]
    {
      stack[sp] := g;
      sp := sp + 1;
      assert stack[..sp] == old(stack[..sp]) + [g];
    }

    method Pop() returns (g: Segment)
      requires Valid() && sp > 0
      modifies this`sp
      ensures Valid() && sp <= g.depth <= MAX_DEPTH
      ensures old(stack[..sp]) == stack[..sp] + [g]
    {
      assert stack[..sp][sp - 1] == stack[sp - 1];
      assert stack[..sp] == stack[..sp - 1] + [stack[sp - 1]];
      sp := sp - 1;
      g := stack[sp];
      assert forall e :: 0 <= e < sp ==> stack[..sp][e] == stack[..sp + 1][e];
    }

    /** Partition the segment, stack its larger outer part, and go on with the smaller. */
    method Split(g: Segment, ghost s0: seq<T>, ghost owner: seq<int>) returns (g': Segment, ghost owner': seq<int>)
      requires Valid() && sp + 1 <= g.depth <= MAX_DEPTH && g.count > 6 && a as object != stack
      requires Progress(s0, a[..], owner, stack[..sp] + [g], cmp)
      modifies this`sp, stack, a
      ensures Valid() && sp <= g'.depth == g.depth && 2 * g'.count < g.count
      ensures Weight(stack[..sp]) + g'.count <= Weight(old(stack[..sp])) + g.count
      ensures Progress(s0, a[..], owner', stack[..sp] + [g'], cmp)
    {
      hide Progress, Rearranged, Parted, Weight;
      ghost var s, rest := a[..], stack[..sp];
      PendingInside(s0, s, owner, rest, g, cmp);
      var lt, gt;
      ghost var p;
      lt, gt, p := Partition(a, g.base, g.count, cmp);
      PartedShape(a[g.base..g.base + g.count], lt, gt, p, cmp);
      var larger: Segment;
      if lt > g.count - gt {
        larger := Segment(g.base, lt, g.depth);
        g' := Segment(g.base + gt, g.count - gt, g.depth);
      } else {
        larger := Segment(g.base + gt, g.count - gt, g.depth);
        g' := Segment(g.base, lt, g.depth);
      }
      owner' := SegmentSplit(s0, s, a[..], owner, rest, g, larger, g', lt, gt, p, cmp);
      WeightSnoc(rest, larger);
      assert rest + [larger, g'] == rest + [larger] + [g'];
      Push(larger);
    }

    method Run(ghost s0: seq<T>, ghost owner0: seq<int>)
      requires Valid() && a as object != stack && Progress(s0, a[..], owner0, stack[..sp], cmp)
      modifies this`sp, stack, a
      ensures multiset(a[..]) == multiset(s0) && (TotalPreorder(cmp) ==> Sorted(a[..], cmp))
    {
      hide Progress, Rearranged, Weight, Sorted, SortedIn, TotalPreorder;
      ghost var owner := owner0;
      while sp > 0
        invariant Valid() && Progress(s0, a[..], owner, stack[..sp], cmp)
        decreases Weight(stack[..sp])
      {
        ghost var all := stack[..sp];
        var g := Pop();
        WeightSnoc(stack[..sp], g);
        while g.count > 6
          invariant Valid() && sp <= g.depth <= MAX_DEPTH
          invariant Progress(s0, a[..], owner, stack[..sp] + [g], cmp)
          invariant Weight(stack[..sp]) + g.count < Weight(all)
          decreases g.count
        {
          PendingInside(s0, a[..], owner, stack[..sp], g, cmp);
          if g.depth + 1 > MAX_DEPTH {
            ghost var s := a[..];
            HeapSort(a, g.base, g.count, cmp);
            owner := SegmentSorted(s0, s, a[..], owner, stack[..sp], g, cmp);
            g := Segment(g.base, 0, g.depth);
            SegmentEmpty(s0, a[..], owner, stack[..sp], g, cmp);
            break;
          }
          DeeperPending(s0, a[..], owner, stack[..sp], g, g.depth + 1, cmp);
          g, owner := Split(Segment(g.base, g.count, g.depth + 1), s0, owner);
        }
        PendingInside(s0, a[..], owner, stack[..sp], g, cmp);
        ghost var s := a[..];
        InsertionSort(a, g.base, g.count, cmp);
        owner := SegmentSorted(s0, s, a[..], owner, stack[..sp], g, cmp);
      }
      assert stack[..sp] == [];
      AllSorted(s0, a[..], owner, cmp);
    }
  }

  lemma PendingInside<T(!new)>(s0: seq<T>, s: seq<T>, owner: seq<int>, rest: seq<Segment>, g: Segment,
                               cmp: (T, T) -> int)
    requires Progress(s0, s, owner, rest + [g], cmp)
    ensures g.base + g.count <= |s|
  {
    hide TotalPreorder, Rearranged, Apart;
    assert (rest + [g])[|rest|] == g;
  }

  lemma DeeperPending<T(!new)>(s0: seq<T>, s: seq<T>, owner: seq<int>, rest: seq<Segment>, g: Segment, depth: nat,
                               cmp: (T, T) -> int)
    requires Progress(s0, s, owner, rest + [g], cmp)
    ensures Progress(s0, s, owner, rest + [Segment(g.base, g.count, depth)], cmp)
  {
    hide TotalPreorder, Rearranged, Apart;
    var old_, new_ := rest + [g], rest + [Segment(g.base, g.count, depth)];
    forall e, k | 0 <= e < |new_| && 0 <= k < |owner| ensures owner[k] == e <==> Inside(new_[e], k) {
      assert Inside(new_[e], k) == Inside(old_[e], k);
    }
    forall e | 0 <= e < |new_| ensures new_[e].base + new_[e].count <= |owner| {
      assert old_[e].base + old_[e].count <= |owner|;
    }
  }

  /** rqsort: the elements are rearranged, whatever the comparator answers, and if it
      is a total preorder they end up sorted. Every array access is in bounds, the
      fifty slots of the explicit stack included, for every length and comparator. */
  method Rqsort<T(!new)>(a: array<T>, cmp: (T, T) -> int)
    modifies a
    ensures multiset(a[..]) == multiset(old(a[..]))
    ensures TotalPreorder(cmp) ==> Sorted(a[..], cmp)
  {
    hide Progress, TotalPreorder;
    if a.Length < 2 { return; }
    ghost var owner := AllPending(a[..], cmp);
    var s := new Sorter(a, cmp);
    assert s.stack[..s.sp] == [];
    s.Push(Segment(0, a.Length, 0));
    assert s.stack[..s.sp] == [Segment(0, a.Length, 0)];
    s.Run(old(a[..]), owner);
  }
}
