/** The expiry heap: slice storage with index tracking, joined to the sift-up
    and sift-down of Go's container/heap. */
module PriorityQueues {
  import opened Hashes

  /** A request in the queue. Only the position changes after creation. */
  class PendingItem {
    const hash: Hash
    const requestTime: int
    const expiryTime: int
    var index: int

    constructor (h: Hash, requested: int, expiry: int)
      ensures hash == h && requestTime == requested && expiryTime == expiry
    {
      hash, requestTime, expiryTime, index := h, requested, expiry, 0;
    }
  }

  function Parent(i: int): int {
    (i - 1) / 2
  }

  /** The item in slot `k` does not expire before its parent. */
  ghost predicate Ordered(s: seq<PendingItem>, k: int)
    requires 0 < k < |s|
  {
    s[Parent(k)].expiryTime <= s[k].expiryTime
  }

  /** A heap, except that the item in slot `hole` may have to move up. */
  ghost predicate HeapExceptAbove(s: seq<PendingItem>, hole: int) {
    && (forall k {:trigger Ordered(s, k)} | 0 < k < |s| && k != hole :: Ordered(s, k))
    && (forall k {:trigger Ordered(s, k)} | 0 < k < |s| && Parent(k) == hole && hole > 0 ::
          s[Parent(hole)].expiryTime <= s[k].expiryTime)
  }

  /** The first `n` slots are a heap, except that the item in `hole` may have to move down. */
  ghost predicate HeapExceptBelow(s: seq<PendingItem>, n: nat, hole: int) {
    && n <= |s|
    && (forall k {:trigger Ordered(s, k)} | 0 < k < n && Parent(k) != hole :: Ordered(s, k))
    && (forall k {:trigger Ordered(s, k)} | 0 < k < n && Parent(k) == hole && hole > 0 ::
          s[Parent(hole)].expiryTime <= s[k].expiryTime)
  }

  ghost predicate IsHeap(s: seq<PendingItem>) {
    forall k {:trigger Ordered(s, k)} | 0 < k < |s| :: Ordered(s, k)
  }

  /** The top of a heap expires no later than anything in it. */
  lemma {:induction false} TopIsLeast(s: seq<PendingItem>, i: nat)
    requires IsHeap(s) && i < |s|
    ensures s[0].expiryTime <= s[i].expiryTime
  {
    if i > 0 {
      assert Ordered(s, i);
      TopIsLeast(s, Parent(i));
    }
  }

  function Exchange<T>(s: seq<T>, i: nat, j: nat): seq<T>
    requires i < |s| && j < |s|
  {
    s[i := s[j]][j := s[i]]
  }

  lemma ExchangeIsPermutation<T>(s: seq<T>, i: nat, j: nat)
    requires i < |s| && j < |s|
    ensures multiset(Exchange(s, i, j)) == multiset(s)
  {
  }

  class PriorityQueue {
    var items: seq<PendingItem>

    /** Every item knows its position; hence no item occurs twice. */
    ghost predicate Tracked()
      reads this, items
    {
      forall i | 0 <= i < |items| :: items[i].index == i
    }

    ghost predicate Valid()
      reads this, items
    {
      Tracked() && IsHeap(items)
    }

    constructor ()
      ensures Valid() && items == []
    {
      items := [];
    }

    predicate Less(i: nat, j: nat)
      requires i < |items| && j < |items|
      reads this
    {
      items[i].expiryTime < items[j].expiryTime
    }

    method Swap(i: nat, j: nat)
      requires i < |items| && j < |items| && Tracked()
      modifies this, items
      ensures items == Exchange(old(items), i, j) && Tracked()
      ensures multiset(items) == multiset(old(items)) && Within(items, old(items))
    {
      ExchangeIsPermutation(items, i, j);
      items := items[i := items[j]][j := items[i]];
      items[i].index := i;
      items[j].index := j;
    }

    method Push(x: PendingItem)
      requires Tracked() && x !in items
      modifies this, x
      ensures items == old(items) + [x] && Tracked()
    {
      var n := |items|;
      x.index := n;
      items := items + [x];
    }

    method Pop() returns (item: PendingItem)
      requires Tracked() && items != []
      modifies this, items
      ensures item == old(items)[|old(items)| - 1] && item.index == -1
      ensures items == old(items)[..|old(items)| - 1] && Tracked() && Within(items, old(items))
    {
      var n := |items|;
      item := items[n - 1];
      item.index := -1;
      items := items[..n - 1];
    }

    /** Sift-up. */
    method Up(j0: nat)
      requires j0 < |items| && Tracked() && HeapExceptAbove(items, j0)
      modifies this, items
      ensures Valid() && multiset(items) == multiset(old(items))
    {
      var j := j0;
      while true
        invariant 0 <= j < |items| && Tracked() && HeapExceptAbove(items, j)
        invariant multiset(items) == multiset(old(items)) && Within(items, old(items))
        decreases j
      {
        var i := Parent(j);
        if j == 0 || !Less(j, i) {
          break;
        }
        UpStep(items, j);
        Swap(i, j);
        j := i;
      }
    }

    /** Sift-down within the first `n` slots. */
    method Down(i0: nat, n: nat)
      requires n <= |items| && Tracked() && HeapExceptBelow(items, n, i0)
      modifies this, items
      ensures Tracked() && HeapExceptBelow(items, n, n) && |items| == |old(items)|
      ensures items[n..] == old(items)[n..]
      ensures multiset(items) == multiset(old(items)) && Within(items, old(items))
    {
      var i := i0;
      while true
        invariant 0 <= i && |items| == |old(items)| && Tracked() && HeapExceptBelow(items, n, i)
        invariant items[n..] == old(items)[n..]
        invariant multiset(items) == multiset(old(items)) && Within(items, old(items))
        decreases n - i
      {
        var j1 := 2 * i + 1;
        if j1 >= n {
          DownAtLeaf(items, n, i);
          break;
        }
        var j := j1;
        var j2 := j1 + 1;
        if j2 < n && Less(j2, j1) {
          j := j2;
        }
        if !Less(j, i) {
          DownStops(items, n, i, j);
          break;
        }
        DownStep(items, n, i, j);
        Swap(i, j);
        i := j;
      }
    }

    /** `heap.Push`. */
    method HeapPush(x: PendingItem)
      requires Valid() && x !in items
      modifies this, items, x
      ensures Valid() && multiset(items) == multiset(old(items)) + multiset{x}
    {
      PushPrepares(items, x);
      Push(x);
      Up(|items| - 1);
    }

    /** `heap.Pop`: hands out an item that expires first and forgets its position. */
    method HeapPop() returns (item: PendingItem)
      requires Valid() && items != []
      modifies this, items
      ensures Valid() && multiset(items) == multiset(old(items)) - multiset{item}
      ensures item == old(items)[0] && item.index == -1
      ensures |items| == |old(items)| - 1 && Within(items, old(items))
      ensures forall i | 0 <= i < |old(items)| :: item.expiryTime <= old(items)[i].expiryTime
    {
      ghost var was := items;
      TopIsFirst(was);
      MoveTopLast();
      item := Pop();
      SubmultisetWithin(items, was);
    }

    /** Exchanges top and last and restores the order of the others. */
    method MoveTopLast()
      requires Valid() && items != []
      modifies this, items
      ensures Tracked() && Within(items, old(items)) && |items| == |old(items)|
      ensures items[|items| - 1] == old(items)[0] && IsHeap(items[..|items| - 1])
      ensures multiset(items[..|items| - 1]) == multiset(old(items)) - multiset{old(items)[0]}
    {
      var n := |items| - 1;
      ghost var was := items;
      PopPrepares(was);
      Swap(0, n);
      ghost var swapped := items;
      assert swapped == Exchange(was, 0, n);
      Down(0, n);
      PopFinishes(was, swapped, items);
    }
  }

  ghost predicate Within<T>(s: seq<T>, t: seq<T>) {
    forall i | 0 <= i < |s| :: s[i] in t
  }

  lemma SubmultisetWithin<T>(s: seq<T>, t: seq<T>)
    requires multiset(s) <= multiset(t)
    ensures Within(s, t)
  {
    forall i | 0 <= i < |s| ensures s[i] in t {
      assert s[i] in multiset(s) && s[i] in multiset(t);
    }
  }

  lemma UpStep(s: seq<PendingItem>, j: nat)
    requires 0 < j < |s| && HeapExceptAbove(s, j) && s[j].expiryTime < s[Parent(j)].expiryTime
    ensures HeapExceptAbove(Exchange(s, Parent(j), j), Parent(j))
  {
    var i := Parent(j);
    var t := Exchange(s, i, j);
    forall k | 0 < k < |t| && k != i ensures Ordered(t, k) {
      assert k == j || Ordered(s, k);
    }
    forall k | 0 < k < |t| && Parent(k) == i && i > 0 ensures t[Parent(i)].expiryTime <= t[k].expiryTime {
      assert Ordered(s, i);
      assert k == j || Ordered(s, k);
    }
  }

  lemma Children(i: nat, k: int)
    ensures 0 < k && Parent(k) == i ==> k == 2 * i + 1 || k == 2 * i + 2
  {
  }

  /** `j` is the child of `i` that expires first. */
  ghost predicate FirstChild(s: seq<PendingItem>, n: nat, i: nat, j: nat)
    requires n <= |s|
  {
    && (j == 2 * i + 1 || j == 2 * i + 2) && j < n
    && s[j].expiryTime <= s[2 * i + 1].expiryTime
    && (2 * i + 2 < n ==> s[j].expiryTime <= s[2 * i + 2].expiryTime)
  }

  lemma DownStep(s: seq<PendingItem>, n: nat, i: nat, j: nat)
    requires HeapExceptBelow(s, n, i) && FirstChild(s, n, i, j)
    requires s[j].expiryTime < s[i].expiryTime
    ensures HeapExceptBelow(Exchange(s, i, j), n, j)
  {
    var t := Exchange(s, i, j);
    forall k | 0 < k < n && Parent(k) != j ensures Ordered(t, k) {
      Children(i, k);
      assert k == i ==> s[Parent(i)].expiryTime <= s[j].expiryTime by {
        var viaChild := Ordered(s, j);
      }
      assert Parent(k) == i || Ordered(s, k);
    }
    forall k | 0 < k < n && Parent(k) == j ensures t[Parent(j)].expiryTime <= t[k].expiryTime {
      assert Ordered(s, k);
    }
  }

  lemma DownStops(s: seq<PendingItem>, n: nat, i: nat, j: nat)
    requires HeapExceptBelow(s, n, i) && FirstChild(s, n, i, j)
    requires s[i].expiryTime <= s[j].expiryTime
    ensures HeapExceptBelow(s, n, n)
  {
    forall k | 0 < k < n ensures Ordered(s, k) {
      Children(i, k);
    }
    ParentsAreEarlier(n);
  }

  lemma ParentsAreEarlier(n: nat)
    ensures forall k | 0 < k <= n :: Parent(k) < n
  {
  }

  lemma DownAtLeaf(s: seq<PendingItem>, n: nat, i: nat)
    requires HeapExceptBelow(s, n, i) && 2 * i + 1 >= n
    ensures HeapExceptBelow(s, n, n)
  {
    forall k | 0 < k < n ensures Parent(k) != i && Ordered(s, k) {
      Children(i, k);
    }
  }

  lemma PopPrepares(s: seq<PendingItem>)
    requires IsHeap(s) && s != []
    ensures HeapExceptBelow(Exchange(s, 0, |s| - 1), |s| - 1, 0)
  {
    var t := Exchange(s, 0, |s| - 1);
    forall k | 0 < k < |s| - 1 && Parent(k) != 0 ensures Ordered(t, k) {
      assert Ordered(s, k);
    }
  }

  lemma PushPrepares(s: seq<PendingItem>, x: PendingItem)
    requires IsHeap(s)
    ensures HeapExceptAbove(s + [x], |s|)
  {
    forall k | 0 < k < |s| ensures Ordered(s + [x], k) {
      assert Ordered(s, k);
    }
    ParentsAreEarlier(|s|);
  }

  lemma TopIsFirst(s: seq<PendingItem>)
    requires IsHeap(s) && s != []
    ensures forall i | 0 <= i < |s| :: s[0].expiryTime <= s[i].expiryTime
  {
    forall i | 0 <= i < |s| ensures s[0].expiryTime <= s[i].expiryTime {
      TopIsLeast(s, i);
    }
  }

  /** After the sift-down the old top is last and the rest is a heap. */
  lemma PopFinishes(was: seq<PendingItem>, swapped: seq<PendingItem>, s: seq<PendingItem>)
    requires was != [] && |s| == |was| && swapped == Exchange(was, 0, |was| - 1)
    requires multiset(swapped) == multiset(was) && multiset(s) == multiset(swapped)
    requires HeapExceptBelow(s, |s| - 1, |s| - 1) && s[|s| - 1..] == swapped[|s| - 1..]
    ensures s[|s| - 1] == was[0] && IsHeap(s[..|s| - 1])
    ensures multiset(s[..|s| - 1]) == multiset(was) - multiset{was[0]}
    ensures Within(s, was)
  {
    var n := |s| - 1;
    assert s[n] == s[n..][0] == swapped[n..][0] == was[0];
    assert s == s[..n] + [s[n]];
    SubmultisetWithin(s, was);
    PrefixIsHeap(s, n);
  }

  lemma PrefixIsHeap(s: seq<PendingItem>, n: nat)
    requires HeapExceptBelow(s, n, n)
    ensures IsHeap(s[..n])
  {
    forall k | 0 < k < n ensures Ordered(s[..n], k) {
      assert Ordered(s, k);
    }
  }
}
