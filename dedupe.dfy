/** The duplicate filter of src/relay/dedupe.ts: an insertion-ordered map from
    message key to expiry time. `shouldRelay` first drops the expired entries
    at the head, then answers false for a key still present, and otherwise
    records the key and evicts the oldest entry once the map is over its size
    limit. The map is a sequence of entries in insertion order. */
module DedupeCache {

  datatype Entry = Entry(key: string, expiry: int)

  predicate Has(c: seq<Entry>, k: string) {
    exists i :: 0 <= i < |c| && c[i].key == k
  }

  predicate DistinctKeys(c: seq<Entry>) {
    forall i, j :: 0 <= i < j < |c| ==> c[i].key != c[j].key
  }

  /** Expiries do not decrease in insertion order. */
  predicate Ordered(c: seq<Entry>) {
    forall i, j :: 0 <= i < j < |c| ==> c[i].expiry <= c[j].expiry
  }

  /** No entry expires later than `t`. */
  predicate ExpiresBy(c: seq<Entry>, t: int) {
    forall i :: 0 <= i < |c| ==> c[i].expiry <= t
  }

  predicate NoEmptyKey(c: seq<Entry>) {
    forall i :: 0 <= i < |c| ==> c[i].key != ""
  }

  /** What `cleanup(now)` leaves: entries are deleted from the head while
      their expiry is before `now`; the first entry that is not expired stops
      the scan. The result is a suffix of the cache, everything cut off is
      expired, and it starts with an unexpired entry. */
  function Live(c: seq<Entry>, now: int): (r: seq<Entry>)
    ensures |r| <= |c| && r == c[|c| - |r|..]
    ensures forall i :: 0 <= i < |c| - |r| ==> c[i].expiry < now
    ensures r == [] || r[0].expiry >= now
    decreases |c|
  {
    if c != [] && c[0].expiry < now then Live(c[1..], now) else c
  }

  /** `Map.delete(k)`. */
  function RemoveKey(c: seq<Entry>, k: string): (r: seq<Entry>)
    ensures |r| <= |c|
    decreases |c|
  {
    if c == [] then []
    else if c[0].key == k then RemoveKey(c[1..], k)
    else [c[0]] + RemoveKey(c[1..], k)
  }

  /** The answer of `shouldRelay` and the cache it leaves behind. */
  datatype Verdict = Verdict(relay: bool, cache: seq<Entry>)

  /** `shouldRelay(hash)` at time `now`, on the cache `c`. The eviction test
      `if (firstKey)` is false for the empty string, so an empty first key
      is never evicted. */
  function Admit(c: seq<Entry>, hash: string, now: int, ttl: int, maxEntries: int): Verdict {
    var live := Live(c, now);
    if Has(live, hash) then Verdict(false, live)
    else
      var grown := live + [Entry(hash, now + ttl)];
      if |grown| > maxEntries && grown[0].key != "" then Verdict(true, grown[1..])
      else Verdict(true, grown)
  }

  class Dedupe {
    const ttlMs: int
    const maxEntries: int
    var cache: seq<Entry>

    ghost predicate Valid()
      reads this
    {
      DistinctKeys(cache)
    }

    /** Every entry was recorded at or before `now` with the fixed TTL. */
    ghost predicate MonotoneAt(now: int)
      reads this
    {
      Ordered(cache) && ExpiresBy(cache, now + ttlMs)
    }

    constructor (ttlMs: int, maxEntries: int)
      ensures this.ttlMs == ttlMs && this.maxEntries == maxEntries
      ensures cache == [] && Valid()
      ensures forall t :: MonotoneAt(t)
    {
      this.ttlMs := ttlMs;
      this.maxEntries := maxEntries;
      cache := [];
    }

    /** `cleanup(now)`: the `for ... of entries()` loop that deletes the
        current head while it is expired and breaks at the first live one. */
    method Cleanup(now: int)
      modifies this
      ensures cache == Live(old(cache), now)
    {
      while cache != []
        invariant Live(cache, now) == Live(old(cache), now)
        decreases |cache|
      {
        if cache[0].expiry < now {
          cache := cache[1..];
        } else {
          break;
        }
      }
    }

    method ShouldRelay(hash: string, now: int) returns (relay: bool)
      requires Valid()
      modifies this
      ensures Valid()
      ensures Verdict(relay, cache) == Admit(old(cache), hash, now, ttlMs, maxEntries)
      ensures old(MonotoneAt(now)) ==> MonotoneAt(now)
    {
      ghost var c := cache;
      Cleanup(now);
      LiveDistinct(c, now);
      if Has(cache, hash) {
        return false;
      }
      ghost var live := cache;
      cache := cache + [Entry(hash, now + ttlMs)];
      AppendFreshDistinct(live, Entry(hash, now + ttlMs));
      if |cache| > maxEntries {
        var firstKey := cache[0].key;
        if firstKey != "" {
          RemoveHead(cache);
          cache := RemoveKey(cache, firstKey);
        }
      }
      AdmitKeepsDistinct(c, hash, now, ttlMs, maxEntries);
      AdmitMonotone(c, hash, now, ttlMs, maxEntries);
      return true;
    }
  }

  // ---------------------------------------------------------------------
  // Properties of the cache
  // ---------------------------------------------------------------------

  /** Position `i` after cleanup is position `i` plus the number dropped before it. */
  lemma LiveIndex(c: seq<Entry>, now: int)
    ensures forall i :: 0 <= i < |Live(c, now)| ==> Live(c, now)[i] == c[|c| - |Live(c, now)| + i]
  {
    var r := Live(c, now);
    assert r == c[|c| - |r|..];
  }

  lemma LiveDistinct(c: seq<Entry>, now: int)
    requires DistinctKeys(c)
    ensures DistinctKeys(Live(c, now))
  {
    LiveIndex(c, now);
  }

  lemma AppendFreshDistinct(c: seq<Entry>, e: Entry)
    requires DistinctKeys(c) && !Has(c, e.key)
    ensures DistinctKeys(c + [e])
  {
    var g := c + [e];
    forall i, j | 0 <= i < j < |g|
      ensures g[i].key != g[j].key
    {
      if j == |c| {
        assert g[i] == c[i];
      }
    }
  }

  /** Deleting the key of the head removes exactly the head when keys are distinct. */
  lemma RemoveHead(c: seq<Entry>)
    requires c != [] && DistinctKeys(c)
    ensures RemoveKey(c, c[0].key) == c[1..]
  {
    NotPresentUnchanged(c[1..], c[0].key);
  }

  lemma {:induction false} NotPresentUnchanged(c: seq<Entry>, k: string)
    requires forall i :: 0 <= i < |c| ==> c[i].key != k
    ensures RemoveKey(c, k) == c
    decreases |c|
  {
    if c != [] {
      NotPresentUnchanged(c[1..], k);
      assert c == [c[0]] + c[1..];
    }
  }

  lemma AdmitKeepsDistinct(c: seq<Entry>, hash: string, now: int, ttl: int, maxEntries: int)
    requires DistinctKeys(c)
    ensures DistinctKeys(Admit(c, hash, now, ttl, maxEntries).cache)
  {
    var live := Live(c, now);
    LiveDistinct(c, now);
    if !Has(live, hash) {
      AppendFreshDistinct(live, Entry(hash, now + ttl));
    }
  }

  /** An entry that has not expired at `now` survives cleanup, whatever the
      order of the cache. */
  lemma LiveKeeps(c: seq<Entry>, now: int, j: int)
    requires 0 <= j < |c| && c[j].expiry >= now
    ensures |c| - |Live(c, now)| <= j
  {
  }

  /** In a cache whose expiries follow insertion order, cleanup removes an
      entry exactly when its expiry is before `now`: the early `break` loses
      nothing. */
  lemma CleanupExact(c: seq<Entry>, now: int)
    requires Ordered(c)
    ensures forall i :: 0 <= i < |c| ==> (i >= |c| - |Live(c, now)| <==> c[i].expiry >= now)
  {
    var d := |c| - |Live(c, now)|;
    forall i | 0 <= i < |c|
      ensures i >= d <==> c[i].expiry >= now
    {
      if i >= d {
        assert c[d].expiry >= now;
      }
    }
  }

  /** Without that order the early `break` can keep an expired entry. */
  lemma CleanupMissesOutOfOrder()
    ensures Live([Entry("a", 10), Entry("b", 5)], 7) == [Entry("a", 10), Entry("b", 5)]
  {
  }

  /** A key not present after cleanup is relayed, and recorded as the newest
      entry with expiry `now + ttl` whenever the limit is at least one. */
  lemma NewKeyIsRecorded(c: seq<Entry>, hash: string, now: int, ttl: int, maxEntries: int)
    requires !Has(Live(c, now), hash) && maxEntries >= 1
    ensures var v := Admit(c, hash, now, ttl, maxEntries);
      v.relay && v.cache != [] && v.cache[|v.cache| - 1] == Entry(hash, now + ttl)
  {
  }

  /** A key that is present after cleanup is not relayed; the cache is only
      cleaned, so the entry keeps its first expiry (a hit does not refresh it). */
  lemma HitChangesOnlyCleanup(c: seq<Entry>, hash: string, now: int, ttl: int, maxEntries: int, i: int)
    requires 0 <= i < |c| && c[i].key == hash && c[i].expiry >= now
    ensures var v := Admit(c, hash, now, ttl, maxEntries);
      !v.relay && v.cache == c[|c| - |v.cache|..] && c[i] in v.cache
  {
    var r := Live(c, now);
    var d := |c| - |r|;
    assert r[i - d] == c[i];
  }

  /** A key admitted at `now` is refused again at any `later` up to `now + ttl`. */
  lemma RepeatWithinTtlBlocked(c: seq<Entry>, hash: string, now: int, later: int, ttl: int, maxEntries: int)
    requires maxEntries >= 1 && !Has(Live(c, now), hash)
    requires now <= later <= now + ttl
    ensures var v := Admit(c, hash, now, ttl, maxEntries);
      v.relay && !Admit(v.cache, hash, later, ttl, maxEntries).relay
  {
    var v := Admit(c, hash, now, ttl, maxEntries);
    NewKeyIsRecorded(c, hash, now, ttl, maxEntries);
    var j := |v.cache| - 1;
    HitChangesOnlyCleanup(v.cache, hash, later, ttl, maxEntries, j);
  }

  lemma LiveKeysFromCache(c: seq<Entry>, now: int, k: string)
    requires Has(Live(c, now), k)
    ensures Has(c, k)
  {
    LiveIndex(c, now);
    var r := Live(c, now);
    var i :| 0 <= i < |r| && r[i].key == k;
    assert c[|c| - |r| + i].key == k;
  }

  lemma AppendKeys(c: seq<Entry>, e: Entry, k: string)
    requires Has(c + [e], k)
    ensures Has(c, k) || k == e.key
  {
    var i :| 0 <= i < |c + [e]| && (c + [e])[i].key == k;
    if i < |c| {
      assert c[i] == (c + [e])[i];
    }
  }

  lemma TailKeys(c: seq<Entry>, k: string)
    requires c != [] && Has(c[1..], k)
    ensures Has(c, k)
  {
    var i :| 0 <= i < |c[1..]| && c[1..][i].key == k;
    assert c[i + 1].key == k;
  }

  /** The keys after a call are the keys before it and possibly `hash`:
      cleanup and eviction only remove. */
  lemma AdmitAddsOnlyHash(c: seq<Entry>, hash: string, now: int, ttl: int, maxEntries: int, k: string)
    requires Has(Admit(c, hash, now, ttl, maxEntries).cache, k)
    ensures Has(c, k) || k == hash
  {
    var live := Live(c, now);
    var v := Admit(c, hash, now, ttl, maxEntries);
    if !Has(live, hash) {
      var e := Entry(hash, now + ttl);
      var grown := live + [e];
      if v.cache != grown {
        TailKeys(grown, k);
      }
      AppendKeys(live, e, k);
    }
    if Has(live, k) {
      LiveKeysFromCache(c, now, k);
    }
  }

  /** Distinct hashes do not interfere: a second key never seen before is
      relayed right after the first. */
  lemma DistinctHashesIndependent(c: seq<Entry>, h1: string, h2: string, now: int, ttl: int, maxEntries: int)
    requires h1 != h2 && !Has(c, h2)
    ensures !Has(Admit(c, h1, now, ttl, maxEntries).cache, h2)
    ensures Admit(Admit(c, h1, now, ttl, maxEntries).cache, h2, now, ttl, maxEntries).relay
  {
    var v := Admit(c, h1, now, ttl, maxEntries);
    if Has(v.cache, h2) {
      AdmitAddsOnlyHash(c, h1, now, ttl, maxEntries, h2);
    }
    LiveIndex(v.cache, now);
  }

  /** With no empty key the size stays within the limit. */
  lemma SizeBounded(c: seq<Entry>, hash: string, now: int, ttl: int, maxEntries: int)
    requires |c| <= maxEntries && NoEmptyKey(c) && hash != ""
    ensures var v := Admit(c, hash, now, ttl, maxEntries);
      |v.cache| <= maxEntries && NoEmptyKey(v.cache)
  {
    var live := Live(c, now);
    LiveIndex(c, now);
    assert NoEmptyKey(live);
    if !Has(live, hash) {
      var grown := live + [Entry(hash, now + ttl)];
      GrownNoEmptyKey(live, Entry(hash, now + ttl));
      assert grown[0].key != "";
      if |grown| > maxEntries {
        assert forall i :: 0 <= i < |grown| - 1 ==> grown[1..][i] == grown[i + 1];
      }
    }
  }

  lemma GrownNoEmptyKey(c: seq<Entry>, e: Entry)
    requires NoEmptyKey(c) && e.key != ""
    ensures NoEmptyKey(c + [e])
  {
    assert forall i :: 0 <= i < |c| ==> (c + [e])[i] == c[i];
  }

  /** An empty key at the head is never evicted, so the cache outgrows its limit. */
  lemma EmptyFirstKeyOverflows()
    ensures var v1 := Admit([], "", 0, 1000, 1);
      var v2 := Admit(v1.cache, "x", 0, 1000, 1);
      v1.relay && v2.relay && |v2.cache| == 2
  {
    var v1 := Admit([], "", 0, 1000, 1);
    assert v1.cache == [Entry("", 1000)];
    assert !Has(v1.cache, "x");
    assert Live(v1.cache, 0) == v1.cache;
  }

  /** Recording at `now` keeps the order of expiries and their bound `now + ttl`. */
  lemma AdmitKeepsOrder(c: seq<Entry>, hash: string, now: int, ttl: int, maxEntries: int)
    requires Ordered(c) && ExpiresBy(c, now + ttl)
    ensures var v := Admit(c, hash, now, ttl, maxEntries);
      Ordered(v.cache) && ExpiresBy(v.cache, now + ttl)
  {
    var live := Live(c, now);
    SuffixKeepsOrder(c, |c| - |live|, now + ttl);
    if !Has(live, hash) {
      var e := Entry(hash, now + ttl);
      AppendKeepsOrder(live, e);
      if |live + [e]| > maxEntries && (live + [e])[0].key != "" {
        SuffixKeepsOrder(live + [e], 1, now + ttl);
      }
    }
  }

  lemma SuffixKeepsOrder(c: seq<Entry>, d: int, t: int)
    requires 0 <= d <= |c| && Ordered(c) && ExpiresBy(c, t)
    ensures Ordered(c[d..]) && ExpiresBy(c[d..], t)
  {
    assert forall i :: 0 <= i < |c| - d ==> c[d..][i] == c[d + i];
  }

  lemma AppendKeepsOrder(c: seq<Entry>, e: Entry)
    requires Ordered(c) && ExpiresBy(c, e.expiry)
    ensures Ordered(c + [e]) && ExpiresBy(c + [e], e.expiry)
  {
    var g := c + [e];
    assert forall i :: 0 <= i < |c| ==> g[i] == c[i];
  }

  /** Under a clock that does not go backwards the bound only loosens. */
  lemma ExpiresByLater(c: seq<Entry>, t: int, u: int)
    requires ExpiresBy(c, t) && t <= u
    ensures ExpiresBy(c, u)
  {
  }

  lemma AdmitMonotone(c: seq<Entry>, hash: string, now: int, ttl: int, maxEntries: int)
    ensures Ordered(c) && ExpiresBy(c, now + ttl) ==>
      var v := Admit(c, hash, now, ttl, maxEntries);
      Ordered(v.cache) && ExpiresBy(v.cache, now + ttl)
  {
    if Ordered(c) && ExpiresBy(c, now + ttl) {
      AdmitKeepsOrder(c, hash, now, ttl, maxEntries);
    }
  }

  /** Once the TTL has passed, an admitted key is relayed again, provided the
      cache was in expiry order. */
  lemma ExpiredKeyRelayedAgain(c: seq<Entry>, hash: string, now: int, later: int, ttl: int, maxEntries: int)
    requires Ordered(c) && ExpiresBy(c, now + ttl) && DistinctKeys(c)
    requires later > now + ttl
    ensures Admit(Admit(c, hash, now, ttl, maxEntries).cache, hash, later, ttl, maxEntries).relay
  {
    var v := Admit(c, hash, now, ttl, maxEntries);
    AdmitKeepsOrder(c, hash, now, ttl, maxEntries);
  }

  lemma ScenarioStepA()
    ensures Admit([], "A", 0, 1000, 2) == Verdict(true, [Entry("A", 1000)])
  {
  }

  lemma ScenarioStepB()
    ensures Admit([Entry("A", 1000)], "B", 0, 1000, 2)
      == Verdict(true, [Entry("A", 1000), Entry("B", 1000)])
  {
    assert !Has([Entry("A", 1000)], "B");
  }

  lemma ScenarioStepC()
    ensures Admit([Entry("A", 1000), Entry("B", 1000)], "C", 0, 1000, 2)
      == Verdict(true, [Entry("B", 1000), Entry("C", 1000)])
  {
    var c := [Entry("A", 1000), Entry("B", 1000)];
    assert Live(c, 0) == c;
    assert !Has(c, "C");
    assert (c + [Entry("C", 1000)])[1..] == [Entry("B", 1000), Entry("C", 1000)];
  }

  lemma ScenarioStepA2()
    ensures Admit([Entry("B", 1000), Entry("C", 1000)], "A", 0, 1000, 2)
      == Verdict(true, [Entry("C", 1000), Entry("A", 1000)])
  {
    var c := [Entry("B", 1000), Entry("C", 1000)];
    assert Live(c, 0) == c;
    assert !Has(c, "A");
    assert (c + [Entry("A", 1000)])[1..] == [Entry("C", 1000), Entry("A", 1000)];
  }

  lemma ScenarioStepC2()
    ensures !Admit([Entry("C", 1000), Entry("A", 1000)], "C", 0, 1000, 2).relay
  {
    var c := [Entry("C", 1000), Entry("A", 1000)];
    assert Live(c, 0) == c;
    assert c[0].key == "C";
  }

  /** Limit 2: after A, B and C the oldest, A, has been evicted, so A counts as
      new again while C is still refused. */
  lemma ScenarioEviction()
    ensures var a := Admit([], "A", 0, 1000, 2);
      var b := Admit(a.cache, "B", 0, 1000, 2);
      var c := Admit(b.cache, "C", 0, 1000, 2);
      var a2 := Admit(c.cache, "A", 0, 1000, 2);
      var c2 := Admit(a2.cache, "C", 0, 1000, 2);
      a.relay && b.relay && c.relay && a2.relay && !c2.relay
  {
    ScenarioStepA();
    ScenarioStepB();
    ScenarioStepC();
    ScenarioStepA2();
    ScenarioStepC2();
  }
}
