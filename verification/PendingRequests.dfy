/** The single-flight request table. The map is the source of truth; the heap
    orders expiries and may hold stale items. */
module PendingRequests {
  import opened Integers
  import opened Hashes
  import opened PriorityQueues

  datatype Meta = Meta(requestTime: int, expiryTime: int, retryCount: nat)

  /** Durations are signed 64-bit counts of nanoseconds. */
  datatype Timeouts = Timeouts(baseTimeout: int64, maxBackoff: int64)

  type Requests = map<Hash, Meta>

  const MAX_RETRIES := 15

  function Pow2(r: nat): nat {
    if r == 0 then 1 else 2 * Pow2(r - 1)
  }

  /** Waiting time before the next retry, in the 64-bit arithmetic of `time.Duration`. */
  function Backoff(r: nat, cfg: Timeouts): int64 {
    var backoff := Wrap64(cfg.baseTimeout * Pow2(r));
    if backoff > cfg.maxBackoff then cfg.maxBackoff else backoff
  }

  function NextRetry(reqs: Requests, h: Hash): nat {
    if h !in reqs then 0
    else if reqs[h].retryCount + 1 > MAX_RETRIES then MAX_RETRIES
    else reqs[h].retryCount + 1
  }

  predicate Live(reqs: Requests, h: Hash, now: int) {
    h in reqs && now < reqs[h].expiryTime
  }

  /** A source of random numbers: `draw(n)` lies in [0, n). */
  ghost predicate Uniform(draw: int -> int) {
    forall n | n > 0 :: 0 <= draw(n) < n
  }

  function Jitter(backoff: int, draw: int -> int): int {
    if backoff >= 5 then draw(backoff / 5) else 0
  }

  /** The sum is a `time.Duration` too. */
  function Window(r: nat, cfg: Timeouts, draw: int -> int): int64 {
    Wrap64(Backoff(r, cfg) + Jitter(Backoff(r, cfg), draw))
  }

  /** The table after a request for `h`. */
  function Added(reqs: Requests, h: Hash, now: int, cfg: Timeouts, draw: int -> int): Requests {
    if Live(reqs, h, now) then reqs
    else
      var r := NextRetry(reqs, h);
      reqs[h := Meta(now, now + Window(r, cfg, draw), r)]
  }

  /** What an eager cleanup keeps. */
  function Unexpired(reqs: Requests, now: int): Requests {
    map h | h in reqs && now < reqs[h].expiryTime :: reqs[h]
  }

  /** A signalling channel with a buffer of one. */
  class Channel {
    var signalled: bool

    constructor ()
      ensures !signalled
    {
      signalled := false;
    }
  }

  ghost predicate Matches(item: PendingItem, h: Hash, m: Meta) {
    item.hash == h && item.requestTime == m.requestTime && item.expiryTime == m.expiryTime
  }

  ghost predicate HasItem(items: seq<PendingItem>, h: Hash, m: Meta) {
    exists i :: 0 <= i < |items| && Matches(items[i], h, m)
  }

  /** Every table entry has its item in the heap. */
  ghost predicate Backed(reqs: Requests, items: seq<PendingItem>) {
    forall h {:trigger HasItem(items, h, reqs[h])} | h in reqs :: HasItem(items, h, reqs[h])
  }

  class PendingManager {
    var pendingRequests: Requests
    const queue: PriorityQueue
    var watchers: map<Hash, seq<Channel>>
    const cfg: Timeouts

    ghost predicate Valid()
      reads this, queue, queue.items
    {
      && queue.Valid()
      && Backed(pendingRequests, queue.items)
    }

    constructor (config: Timeouts)
      ensures Valid() && pendingRequests == map[] && watchers == map[] && cfg == config
      ensures fresh(queue)
    {
      pendingRequests, watchers := map[], map[];
      queue := new PriorityQueue();
      cfg := config;
    }

    method Add(hash: Hash, now: int, draw: int -> int) returns (added: bool)
      requires Valid() && Uniform(draw)
      modifies this, queue, queue.items
      ensures Valid()
      ensures added <==> !Live(old(pendingRequests), hash, now)
      ensures pendingRequests == Added(old(pendingRequests), hash, now, cfg, draw)
      ensures added ==> hash in pendingRequests && pendingRequests[hash].requestTime == now
      ensures forall h | h != hash :: (h in pendingRequests <==> h in old(pendingRequests)) &&
                (h in pendingRequests ==> pendingRequests[h] == old(pendingRequests)[h])
      ensures watchers == old(watchers)
    {
      if hash in pendingRequests && now < pendingRequests[hash].expiryTime {
        return false;
      }
      var retryCount := 0;
      if hash in pendingRequests {
        retryCount := pendingRequests[hash].retryCount + 1;
      }
      if retryCount > 15 {
        retryCount := 15;
      }
      var backoff := Wrap64(cfg.baseTimeout * Pow2(retryCount));
      if backoff > cfg.maxBackoff {
        backoff := cfg.maxBackoff;
      }
      var jitter := 0;
      if backoff >= 5 {
        jitter := draw(backoff / 5);
      }
      var expiry := now + Wrap64(backoff + jitter);
      var item := new PendingItem(hash, now, expiry);
      ghost var before := queue.items;
      pendingRequests := pendingRequests[hash := Meta(now, expiry, retryCount)];
      queue.HeapPush(item);
      PushKeepsBacked(old(pendingRequests), before, queue.items, item, Meta(now, expiry, retryCount));
      return true;
    }

    /** Registers one fresh channel under every hash of the batch. */
    method Watch(hashes: seq<Hash>) returns (ch: Channel)
      modifies this`watchers
      ensures fresh(ch) && !ch.signalled
      ensures watchers == Watched(old(watchers), hashes, ch)
    {
      ch := new Channel();
      assert hashes[..0] == [];
      for i := 0 to |hashes|
        invariant watchers == Watched(old(watchers), hashes[..i], ch) && !ch.signalled
      {
        var h := hashes[i];
        assert hashes[..i + 1][..i] == hashes[..i];
        var list := if h in watchers then watchers[h] else [];
        watchers := watchers[h := list + [ch]];
      }
      assert hashes[..|hashes|] == hashes;
    }

    /** Forgets a hash and signals everyone who waits for it; the heap is left alone. */
    method Remove(hash: Hash)
      requires Valid()
      modifies this, if hash in watchers then watchers[hash] else []
      ensures Valid()
      ensures pendingRequests == old(pendingRequests) - {hash}
      ensures watchers == old(watchers) - {hash}
      ensures hash in old(watchers) ==> forall ch | ch in old(watchers)[hash] :: ch.signalled
    {
      pendingRequests := pendingRequests - {hash};
      if hash in watchers {
        var channels := watchers[hash];
        for i := 0 to |channels|
          invariant forall k | 0 <= k < i :: channels[k].signalled
          modifies channels
        {
          channels[i].signalled := true;
        }
        watchers := watchers - {hash};
      } else {
        assert watchers == watchers - {hash};
      }
    }

    predicate IsPending(hash: Hash, now: int)
      reads this
    {
      Live(pendingRequests, hash, now)
    }

    /** Pops the top, which backs none of the entries in `reqs`. */
    method DropTop(ghost reqs: Requests)
      requires queue.Valid() && queue.items != [] && Backed(reqs, queue.items)
      requires queue.items[0].hash in reqs ==> !Matches(queue.items[0], queue.items[0].hash, reqs[queue.items[0].hash])
      modifies queue, queue.items
      ensures queue.Valid() && Backed(reqs, queue.items)
      ensures |queue.items| == |old(queue.items)| - 1
      ensures Within(queue.items, old(queue.items))
    {
      ghost var before := queue.items;
      var top := queue.HeapPop();
      PopKeepsBacked(reqs, before, queue.items, top);
    }

    /** Pops stale and expired items and stops at the first live, unexpired top.
        The result is what an eager pass over the whole table would give. */
    method Cleanup(now: int)
      requires Valid()
      modifies this, queue, queue.items
      ensures Valid()
      ensures pendingRequests == Unexpired(old(pendingRequests), now)
      ensures forall i | 0 <= i < |queue.items| :: now < queue.items[i].expiryTime
      ensures Within(queue.items, old(queue.items))
      ensures watchers == old(watchers)
    {
      while |queue.items| > 0
        invariant Valid() && watchers == old(watchers)
        invariant Within(queue.items, old(queue.items))
        invariant Between(old(pendingRequests), pendingRequests, now)
        decreases |queue.items|
      {
        var item := queue.items[0];
        if item.hash !in pendingRequests ||
           pendingRequests[item.hash].requestTime != item.requestTime ||
           pendingRequests[item.hash].expiryTime != item.expiryTime {
          DropTop(pendingRequests);
          continue;
        }
        if now < item.expiryTime {
          TopUnexpired(pendingRequests, queue.items, now);
          break;
        }
        DropTop(pendingRequests - {item.hash});
        pendingRequests := pendingRequests - {item.hash};
      }
      CleanupDone(old(pendingRequests), pendingRequests, queue.items, now);
    }
  }

  /** `Watch` appends the channel to the list of every hash in turn. */
  function Watched(watchers: map<Hash, seq<Channel>>, hashes: seq<Hash>, ch: Channel): map<Hash, seq<Channel>> {
    if hashes == [] then watchers else
      var before := Watched(watchers, hashes[..|hashes| - 1], ch);
      var h := hashes[|hashes| - 1];
      before[h := (if h in before then before[h] else []) + [ch]]
  }

  ghost predicate Watches(watchers: map<Hash, seq<Channel>>, h: Hash, ch: Channel) {
    h in watchers && ch in watchers[h]
  }

  /** A watcher hears of exactly the hashes it asked for, and displaces nobody. */
  lemma {:induction false} WatchedExactly(watchers: map<Hash, seq<Channel>>, hashes: seq<Hash>, ch: Channel, h: Hash, c: Channel)
    ensures Watches(Watched(watchers, hashes, ch), h, c) <==> Watches(watchers, h, c) || (c == ch && h in hashes)
  {
    if hashes != [] {
      var n := |hashes| - 1;
      WatchedExactly(watchers, hashes[..n], ch, h, c);
      assert hashes == hashes[..n] + [hashes[n]];
    }
  }

  lemma PushKeepsBacked(reqs: Requests, before: seq<PendingItem>, after: seq<PendingItem>, item: PendingItem, m: Meta)
    requires Backed(reqs, before) && multiset(after) == multiset(before) + multiset{item}
    requires Matches(item, item.hash, m)
    ensures Backed(reqs[item.hash := m], after)
  {
    var reqs' := reqs[item.hash := m];
    forall h | h in reqs' ensures HasItem(after, h, reqs'[h]) {
      if h == item.hash {
        assert item in multiset(after);
        var i :| 0 <= i < |after| && after[i] == item;
      } else {
        assert HasItem(before, h, reqs[h]);
        var k :| 0 <= k < |before| && Matches(before[k], h, reqs[h]);
        assert before[k] in multiset(after);
        var i :| 0 <= i < |after| && after[i] == before[k];
      }
    }
  }

  /** Popping an item that backs no remaining entry leaves every entry backed. */
  lemma PopKeepsBacked(reqs: Requests, before: seq<PendingItem>, after: seq<PendingItem>, item: PendingItem)
    requires Backed(reqs, before) && multiset(after) == multiset(before) - multiset{item}
    requires item.hash in reqs ==> !Matches(item, item.hash, reqs[item.hash])
    ensures Backed(reqs, after)
  {
    forall h | h in reqs ensures HasItem(after, h, reqs[h]) {
      assert HasItem(before, h, reqs[h]);
      var k :| 0 <= k < |before| && Matches(before[k], h, reqs[h]);
      assert before[k] != item;
      assert before[k] in multiset(before) && before[k] in multiset(after);
      var i :| 0 <= i < |after| && after[i] == before[k];
    }
  }

  /** Only expired entries have been dropped so far. */
  ghost predicate Between(before: Requests, after: Requests, now: int) {
    && (forall h | h in after :: h in before && after[h] == before[h])
    && (forall h | h in before && h !in after :: before[h].expiryTime <= now)
  }

  lemma TopUnexpired(reqs: Requests, items: seq<PendingItem>, now: int)
    requires IsHeap(items) && items != [] && now < items[0].expiryTime
    ensures forall i | 0 <= i < |items| :: now < items[i].expiryTime
  {
    forall i | 0 <= i < |items| ensures now < items[i].expiryTime {
      TopIsLeast(items, i);
    }
  }

  lemma CleanupDone(before: Requests, after: Requests, items: seq<PendingItem>, now: int)
    requires Between(before, after, now) && Backed(after, items)
    requires forall i | 0 <= i < |items| :: now < items[i].expiryTime
    ensures after == Unexpired(before, now)
  {
    forall h | h in after ensures now < after[h].expiryTime {
      assert HasItem(items, h, after[h]);
      var i :| 0 <= i < |items| && Matches(items[i], h, after[h]);
    }
  }
}
