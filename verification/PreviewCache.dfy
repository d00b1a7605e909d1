/** The in-memory preview caches: lookup with a time to live, and eviction of the oldest tenth before an
    insert into a full cache. Both caches run the same code with their own limits; `V` is what they hold. */
module PreviewCache {
  import opened Sorting
  import opened Wrappers

  // times in seconds
  const CACHE_TTL: nat := 600
  const MAX_CACHE_ENTRIES: nat := 2000
  const IMAGE_CACHE_TTL: nat := 300
  const MAX_IMAGE_CACHE_ENTRIES: nat := 500

  type Url = string

  datatype Entry<V> = Entry(data: V, fetchedAt: nat)

  type Entries<V> = map<Url, Entry<V>>

  /** Saturating, as the monotonic clock's `elapsed` is. */
  function Elapsed(since: nat, now: nat): nat {
    if now >= since then now - since else 0
  }

  function LookupSpec<V>(entries: Entries<V>, ttl: nat, url: Url, now: nat): Option<V> {
    if url in entries && Elapsed(entries[url].fetchedAt, now) < ttl then Some(entries[url].data) else None
  }

  function ToRemove(n: nat): nat {
    if n / 10 >= 1 then n / 10 else 1
  }

  /** A tenth of n rounded down, but at least one. */
  predicate IsTenth(k: nat, n: nat) {
    if n < 10 then k == 1 else 10 * k <= n < 10 * (k + 1)
  }

  lemma ToRemoveIsTenth(n: nat)
    ensures IsTenth(ToRemove(n), n)
  {}

  /** The keys a store may evict: none below capacity, else a tenth and at least one, none newer than a kept
      entry. Among entries of one age the map's iteration order decides. */
  ghost predicate Evicts<V>(entries: Entries<V>, max: nat, evicted: set<Url>) {
    if |entries| < max then evicted == {}
    else
      && evicted <= entries.Keys
      && |evicted| == ToRemove(|entries|)
      && forall e, k :: e in evicted && k in entries.Keys - evicted ==> entries[e].fetchedAt <= entries[k].fetchedAt
  }

  function StoreSpec<V>(entries: Entries<V>, evicted: set<Url>, url: Url, data: V, now: nat): Entries<V> {
    (entries - evicted)[url := Entry(data, now)]
  }

  type Stamp = (Url, nat)

  /** `sort_by_key(|(_, t)| *t)`: oldest first. */
  function SortByTime(stamps: seq<Stamp>): (r: seq<Stamp>)
    ensures |r| == |stamps|
  {
    SortBy(stamps, (x: Stamp) => x.1)
  }

  /** The stamps list every entry once. */
  ghost predicate Lists<V>(stamps: seq<Stamp>, entries: Entries<V>) {
    && |stamps| == |entries|
    && (forall i, j :: 0 <= i < j < |stamps| ==> stamps[i].0 != stamps[j].0)
    && (forall i :: 0 <= i < |stamps| ==> stamps[i].0 in entries && entries[stamps[i].0].fetchedAt == stamps[i].1)
  }

  ghost predicate Sorted(stamps: seq<Stamp>) {
    forall i, j :: 0 <= i < j < |stamps| ==> stamps[i].1 <= stamps[j].1
  }

  lemma SortByTimeSorts(stamps: seq<Stamp>)
    ensures Sorted(SortByTime(stamps)) && multiset(SortByTime(stamps)) == multiset(stamps)
  {
    SortBySorts(stamps, (x: Stamp) => x.1);
  }

  /** Distinctness carries over to any rearrangement. */
  lemma {:induction false} Rearranged<V>(a: seq<Stamp>, b: seq<Stamp>, entries: Entries<V>)
    requires Lists(a, entries) && multiset(a) == multiset(b) && |a| == |b|
    ensures Lists(b, entries)
  {
    forall i | 0 <= i < |b|
      ensures b[i] in a
    {
      assert b[i] in multiset(b);
    }
    forall i, j | 0 <= i < j < |b|
      ensures b[i].0 != b[j].0
    {
      if b[i] == b[j] {
        TwiceInRepeated(b, i, j);
      }
      OnceInDistinct(a, b[j]);
      assert b[i] in a && b[j] in a;
    }
  }

  lemma TwiceInRepeated(b: seq<Stamp>, i: nat, j: nat)
    requires i < j < |b| && b[i] == b[j]
    ensures multiset(b)[b[j]] >= 2
  {
    assert b == b[..j] + [b[j]] + b[j + 1..];
    assert b[..j][i] == b[i];
  }

  lemma {:induction false} OnceInDistinct(a: seq<Stamp>, x: Stamp)
    requires forall i, j :: 0 <= i < j < |a| ==> a[i].0 != a[j].0
    ensures multiset(a)[x] <= 1
  {
    if a != [] {
      var n := |a| - 1;
      OnceInDistinct(a[..n], x);
      assert a == a[..n] + [a[n]];
      if a[n] == x {
        assert x !in a[..n];
      }
    }
  }

  ghost function Keys(stamps: seq<Stamp>): set<Url> {
    set i | 0 <= i < |stamps| :: stamps[i].0
  }

  lemma {:induction false} KeysCount(stamps: seq<Stamp>)
    requires forall i, j :: 0 <= i < j < |stamps| ==> stamps[i].0 != stamps[j].0
    ensures |Keys(stamps)| == |stamps|
  {
    if stamps == [] {
      assert Keys(stamps) == {};
    } else {
      var n := |stamps| - 1;
      KeysCount(stamps[..n]);
      assert Keys(stamps) == Keys(stamps[..n]) + {stamps[n].0} by {
        forall u | u in Keys(stamps)
          ensures u in Keys(stamps[..n]) || u == stamps[n].0
        {
          var i :| 0 <= i < |stamps| && stamps[i].0 == u;
          if i < n {
            assert stamps[..n][i].0 == u;
          }
        }
        forall u | u in Keys(stamps[..n])
          ensures u in Keys(stamps)
        {
          var i :| 0 <= i < n && stamps[..n][i].0 == u;
          assert stamps[i].0 == u;
        }
        assert stamps[n].0 in Keys(stamps);
      }
      assert stamps[n].0 !in Keys(stamps[..n]);
    }
  }

  /** The first entries of a sorted listing are a legal eviction. */
  lemma OldestAreEvictable<V>(entries: Entries<V>, max: nat, stamps: seq<Stamp>, n: nat)
    requires Lists(stamps, entries) && Sorted(stamps)
    requires |entries| >= max && n == ToRemove(|entries|) <= |entries|
    ensures Evicts(entries, max, Keys(stamps[..n]))
  {
    KeysCount(stamps[..n]);
    KeysCount(stamps);
    SameKeys(stamps, entries);
    hide Keys;
    forall e, k | e in Keys(stamps[..n]) && k in entries.Keys - Keys(stamps[..n])
      ensures entries[e].fetchedAt <= entries[k].fetchedAt
    {
      var i := EarlyKey(stamps, n, e);
      var j := LateKey(stamps, n, k);
    }
  }

  lemma EarlyKey(stamps: seq<Stamp>, n: nat, e: Url) returns (i: nat)
    requires n <= |stamps| && e in Keys(stamps[..n])
    ensures i < n && stamps[i].0 == e
  {
    i :| 0 <= i < n && stamps[..n][i].0 == e;
  }

  lemma LateKey(stamps: seq<Stamp>, n: nat, k: Url) returns (j: nat)
    requires n <= |stamps| && k in Keys(stamps) && k !in Keys(stamps[..n])
    ensures n <= j < |stamps| && stamps[j].0 == k
  {
    forall i | 0 <= i < n
      ensures stamps[i].0 in Keys(stamps[..n])
    {
      assert stamps[..n][i].0 == stamps[i].0;
    }
    j :| 0 <= j < |stamps| && stamps[j].0 == k;
  }

  lemma SameKeys<V>(stamps: seq<Stamp>, entries: Entries<V>)
    requires Lists(stamps, entries) && |Keys(stamps)| == |stamps|
    ensures Keys(stamps) == entries.Keys
  {
    assert Keys(stamps) <= entries.Keys;
    SubsetOfSameSize(Keys(stamps), entries.Keys);
  }

  lemma SubsetOfSameSize<T>(a: set<T>, b: set<T>)
    requires a <= b && |a| == |b|
    ensures a == b
  {
    assert |b - a| == |b| - |a|;
  }

  class Cache<V> {
    const maxEntries: nat
    const ttl: nat
    var entries: Entries<V>

    constructor Previews()
      ensures maxEntries == 2000 && ttl == 600 && entries == map[]
    {
      maxEntries, ttl, entries := MAX_CACHE_ENTRIES, CACHE_TTL, map[];
    }

    constructor Images()
      ensures maxEntries == 500 && ttl == 300 && entries == map[]
    {
      maxEntries, ttl, entries := MAX_IMAGE_CACHE_ENTRIES, IMAGE_CACHE_TTL, map[];
    }

    method Lookup(url: Url, now: nat) returns (r: Option<V>)
      ensures r == LookupSpec(entries, ttl, url, now)
      ensures r.Some? <==> url in entries && ttl > 0 && now < entries[url].fetchedAt + ttl
      ensures r.Some? ==> r.value == entries[url].data
    {
      r := None;
      if url in entries {
        var entry := entries[url];
        if Elapsed(entry.fetchedAt, now) < ttl {
          r := Some(entry.data);
        }
      }
    }

    /** Lists the entries in some order, as iterating over the map does. */
    method Stamps() returns (stamps: seq<Stamp>)
      ensures Lists(stamps, entries)
    {
      stamps := [];
      var rest := entries.Keys;
      while rest != {}
        invariant rest <= entries.Keys && |stamps| + |rest| == |entries|
        invariant forall i, j :: 0 <= i < j < |stamps| ==> stamps[i].0 != stamps[j].0
        invariant forall i :: 0 <= i < |stamps| ==>
          stamps[i].0 in entries && stamps[i].0 !in rest && entries[stamps[i].0].fetchedAt == stamps[i].1
        decreases rest
      {
        var url :| url in rest;
        stamps := stamps + [(url, entries[url].fetchedAt)];
        rest := rest - {url};
      }
    }

    /** The entries by age, oldest first, and how many of them to remove. */
    method Oldest() returns (stamps: seq<Stamp>, toRemove: nat)
      requires |entries| >= maxEntries >= 1
      ensures toRemove == ToRemove(|entries|) <= |stamps|
      ensures Evicts(entries, maxEntries, Keys(stamps[..toRemove]))
    {
      hide Evicts, Keys;
      var listed := Stamps();
      SortByTimeSorts(listed);
      stamps := SortByTime(listed);
      Rearranged(listed, stamps, entries);
      toRemove := ToRemove(|stamps|);
      OldestAreEvictable(entries, maxEntries, stamps, toRemove);
    }

    method Evict() returns (ghost evicted: set<Url>)
      requires |entries| >= maxEntries >= 1
      modifies this
      ensures Evicts(old(entries), maxEntries, evicted)
      ensures entries == old(entries) - evicted
    {
      hide Evicts, Keys;
      var stamps, toRemove := Oldest();
      evicted := Keys(stamps[..toRemove]);
      NoKeys(stamps);
      RemoveOneMore(entries, {}, "");
      for i := 0 to toRemove
        invariant entries == old(entries) - Keys(stamps[..i])
      {
        KeysStep(stamps, i);
        RemoveOneMore(old(entries), Keys(stamps[..i]), stamps[i].0);
        entries := entries - {stamps[i].0};
      }
    }

    /** The evict-then-insert block, with the lock held. */
    method Store(url: Url, data: V, now: nat) returns (ghost evicted: set<Url>)
      requires maxEntries >= 1
      modifies this
      ensures Evicts(old(entries), maxEntries, evicted)
      ensures |old(entries)| < maxEntries ==> evicted == {}
      ensures |old(entries)| >= maxEntries ==>
        && evicted <= old(entries).Keys
        && IsTenth(|evicted|, |old(entries)|)
        && forall e, k :: e in evicted && k in old(entries).Keys - evicted ==>
          old(entries)[e].fetchedAt <= old(entries)[k].fetchedAt
      ensures entries == (old(entries) - evicted)[url := Entry(data, now)]
      ensures entries == StoreSpec(old(entries), evicted, url, data, now)
    {
      evicted := {};
      ToRemoveIsTenth(|entries|);
      if |entries| >= maxEntries {
        evicted := Evict();
      }
      entries := entries[url := Entry(data, now)];
    }
  }

  lemma RemoveOneMore<V>(entries: Entries<V>, gone: set<Url>, url: Url)
    ensures (entries - gone) - {url} == entries - (gone + {url})
    ensures entries - {} == entries
  {}

  lemma NoKeys(stamps: seq<Stamp>)
    ensures Keys(stamps[..0]) == {}
  {}

  lemma KeysStep(stamps: seq<Stamp>, i: nat)
    requires i < |stamps|
    ensures Keys(stamps[..i + 1]) == Keys(stamps[..i]) + {stamps[i].0}
  {
    forall u | u in Keys(stamps[..i])
      ensures u in Keys(stamps[..i + 1])
    {
      var k :| 0 <= k < i && stamps[..i][k].0 == u;
      assert stamps[..i + 1][k].0 == u;
    }
    assert stamps[..i + 1][i].0 in Keys(stamps[..i + 1]);
    forall u | u in Keys(stamps[..i + 1])
      ensures u in Keys(stamps[..i]) || u == stamps[i].0
    {
      var k :| 0 <= k < i + 1 && stamps[..i + 1][k].0 == u;
      if k < i {
        assert stamps[..i][k].0 == u;
      }
    }
  }

  // ----- runs of locked steps -----

  /** A lookup changes nothing, so a run is the sequence of its stores, each with what it evicted. */
  datatype StoreOp<V> = StoreOp(url: Url, data: V, now: nat, evicted: set<Url>)

  function After<V>(ops: seq<StoreOp<V>>): Entries<V> {
    if ops == [] then map[]
    else
      var op := ops[|ops| - 1];
      StoreSpec(After(ops[..|ops| - 1]), op.evicted, op.url, op.data, op.now)
  }

  /** Every store evicted as the code does, and the clock did not run backwards. */
  ghost predicate Legal<V(!new)>(ops: seq<StoreOp<V>>, max: nat) {
    && (forall i :: 0 <= i < |ops| ==> Evicts(After(ops[..i]), max, ops[i].evicted))
    && (forall i, j :: 0 <= i < j < |ops| ==> ops[i].now <= ops[j].now)
  }

  /** The last store for a URL. */
  function LastStore<V>(ops: seq<StoreOp<V>>, url: Url): Option<Entry<V>> {
    if ops == [] then None
    else if ops[|ops| - 1].url == url then Some(Entry(ops[|ops| - 1].data, ops[|ops| - 1].now))
    else LastStore(ops[..|ops| - 1], url)
  }

  lemma LegalPrefix<V(!new)>(ops: seq<StoreOp<V>>, max: nat, n: nat)
    requires Legal(ops, max) && n <= |ops|
    ensures Legal(ops[..n], max)
  {
    hide Evicts, After;
    forall i | 0 <= i < n
      ensures Evicts(After(ops[..n][..i]), max, ops[..n][i].evicted)
    {
      assert ops[..n][..i] == ops[..i];
    }
  }

  /** A store leaves room: the cache never grows past its limit. */
  lemma StoreFits<V>(entries: Entries<V>, max: nat, evicted: set<Url>, url: Url, data: V, now: nat)
    requires |entries| <= max && max >= 1 && Evicts(entries, max, evicted)
    ensures |StoreSpec(entries, evicted, url, data, now)| <= max
  {
    hide Evicts;
    KeptCount(entries, max, evicted);
    AddOne(entries - evicted, url, Entry(data, now));
  }

  lemma AddOne<V>(m: Entries<V>, url: Url, entry: Entry<V>)
    ensures |m[url := entry]| <= |m| + 1
  {
    var after := m[url := entry];
    assert after.Keys == m.Keys + {url};
    KeysSize(m);
    KeysSize(after);
  }

  lemma KeysSize<V>(m: Entries<V>)
    ensures |m| == |m.Keys|
  {}

  lemma KeptCount<V>(entries: Entries<V>, max: nat, evicted: set<Url>)
    requires |entries| <= max && max >= 1 && Evicts(entries, max, evicted)
    ensures |entries - evicted| < max
  {
    var kept := entries - evicted;
    assert kept.Keys == entries.Keys - evicted;
    KeysSize(entries);
    KeysSize(kept);
    if |entries| < max {
      assert kept.Keys == entries.Keys;
    } else {
      assert |evicted| >= 1 && entries.Keys == kept.Keys + evicted;
    }
  }

  /** Over any interleaving of locked steps: the cache stays within its limit; the entry just stored is there;
      every entry is the last one stored for its URL; so a hit returns that value, within the time to live. */
  lemma {:induction false} RunsStayBounded<V(!new)>(ops: seq<StoreOp<V>>, max: nat)
    requires max >= 1 && Legal(ops, max)
    ensures |After(ops)| <= max
    ensures ops != [] ==> ops[|ops| - 1].url in After(ops)
    ensures forall url :: url in After(ops) ==> LastStore(ops, url) == Some(After(ops)[url])
    ensures forall ttl, url, now :: LookupSpec(After(ops), ttl, url, now).Some? ==>
      && LastStore(ops, url).Some?
      && LookupSpec(After(ops), ttl, url, now).value == LastStore(ops, url).value.data
      && Elapsed(LastStore(ops, url).value.fetchedAt, now) < ttl
  {
    hide Evicts;
    if ops != [] {
      var n := |ops| - 1;
      LegalPrefix(ops, max, n);
      RunsStayBounded(ops[..n], max);
      StoreFits(After(ops[..n]), max, ops[n].evicted, ops[n].url, ops[n].data, ops[n].now);
    }
  }

  /** Conversely, a URL that was stored and that no later store evicted is still there, so a lookup within
      the time to live hits. */
  lemma {:induction false} UnevictedIsFound<V(!new)>(ops: seq<StoreOp<V>>, i: nat)
    requires i < |ops|
    requires forall k :: i < k < |ops| ==> ops[i].url !in ops[k].evicted
    ensures ops[i].url in After(ops)
    decreases |ops|
  {
    var n := |ops| - 1;
    if i < n {
      UnevictedIsFound(ops[..n], i);
    }
  }

  // ----- how long an entry survives -----

  /** The URLs other than that of store `i` stored at its instant or later, and before store `k`. */
  ghost function OthersSince<V>(ops: seq<StoreOp<V>>, i: nat, k: nat): set<Url>
    requires i < |ops| && k <= |ops|
  {
    set j | 0 <= j < k && ops[j].now >= ops[i].now && ops[j].url != ops[i].url :: ops[j].url
  }

  lemma {:induction false} LastIndex<V>(ops: seq<StoreOp<V>>, url: Url) returns (j: nat)
    requires LastStore(ops, url).Some?
    ensures j < |ops| && ops[j].url == url && LastStore(ops, url) == Some(Entry(ops[j].data, ops[j].now))
    ensures forall m :: j < m < |ops| ==> ops[m].url != url
  {
    j := |ops| - 1;
    if ops[j].url != url {
      j := LastIndex(ops[..j], url);
    }
  }

  /** Where an entry's stamp comes from: the last store for its URL. */
  lemma StampOf<V(!new)>(ops: seq<StoreOp<V>>, max: nat, url: Url) returns (j: nat)
    requires max >= 1 && Legal(ops, max) && url in After(ops)
    ensures j < |ops| && ops[j].url == url && After(ops)[url].fetchedAt == ops[j].now
    ensures forall m :: j < m < |ops| ==> ops[m].url != url
  {
    hide Legal, Evicts, After;
    RunsStayBounded(ops, max);
    j := LastIndex(ops, url);
  }

  /** Whatever an eviction keeps was stored no earlier than anything it evicts. */
  lemma KeptIsLater<V(!new)>(ops: seq<StoreOp<V>>, max: nat, i: nat, k: nat, e: Url)
    requires max >= 1 && Legal(ops, max) && i < k < |ops|
    requires ops[i].url in ops[k].evicted && e in After(ops[..k]).Keys - ops[k].evicted
    ensures e in OthersSince(ops, i, k)
  {
    LegalPrefix(ops, max, k);
    assert Evicts(After(ops[..k]), max, ops[k].evicted);
    hide After;
    var own := StampOf(ops[..k], max, ops[i].url);
    var kept := StampOf(ops[..k], max, e);
    assert ops[..k][i].url == ops[i].url;
    assert ops[own].now >= ops[i].now;
    assert ops[kept].now >= ops[i].now;
  }

  /** An entry is evicted only when a cache's worth of other URLs, less a tenth, was stored since. */
  lemma EvictedAfterMany<V(!new)>(ops: seq<StoreOp<V>>, max: nat, i: nat, k: nat)
    requires max >= 1 && Legal(ops, max) && i < k < |ops|
    requires ops[i].url in ops[k].evicted
    ensures |OthersSince(ops, i, k)| >= max - 1 || |OthersSince(ops, i, k)| >= max - max / 10
  {
    var entries := After(ops[..k]);
    LegalPrefix(ops, max, k);
    RunsStayBounded(ops[..k], max);
    assert Evicts(entries, max, ops[k].evicted);
    var kept := entries.Keys - ops[k].evicted;
    KeysSize(entries);
    forall e | e in kept
      ensures e in OthersSince(ops, i, k)
    {
      KeptIsLater(ops, max, i, k, e);
    }
    hide OthersSince, Legal, After;
    SubsetIsSmaller(kept, OthersSince(ops, i, k));
    assert |kept| == |entries.Keys| - |ops[k].evicted|;
  }

  lemma SubsetIsSmaller<T>(a: set<T>, b: set<T>)
    requires a <= b
    ensures |a| <= |b|
  {
    assert b == a + (b - a);
  }

  lemma OthersGrow<V>(ops: seq<StoreOp<V>>, i: nat, k: nat)
    requires i < |ops| && k <= |ops|
    ensures |OthersSince(ops, i, k)| <= |OthersSince(ops, i, |ops|)|
  {
    assert OthersSince(ops, i, k) <= OthersSince(ops, i, |ops|);
    SubsetIsSmaller(OthersSince(ops, i, k), OthersSince(ops, i, |ops|));
  }

  /** What removing only the oldest tenth is for: a stored value, or a newer one for its URL, is found for
      its whole time to live unless as many other URLs as the cache holds, less a tenth, were stored since. */
  lemma RecentSurvives<V(!new)>(ops: seq<StoreOp<V>>, max: nat, i: nat, ttl: nat, now: nat)
    requires max >= 1 && Legal(ops, max) && i < |ops|
    requires |OthersSince(ops, i, |ops|)| < max - 1 && |OthersSince(ops, i, |ops|)| < max - max / 10
    requires Elapsed(ops[i].now, now) < ttl
    ensures ops[i].url in After(ops)
    ensures LastStore(ops, ops[i].url).Some?
    ensures LookupSpec(After(ops), ttl, ops[i].url, now) == Some(LastStore(ops, ops[i].url).value.data)
  {
    forall k | i < k < |ops|
      ensures ops[i].url !in ops[k].evicted
    {
      if ops[i].url in ops[k].evicted {
        EvictedAfterMany(ops, max, i, k);
        OthersGrow(ops, i, k);
        assert false;
      }
    }
    UnevictedIsFound(ops, i);
    hide Evicts, After, OthersSince;
    RunsStayBounded(ops, max);
    var j := StampOf(ops, max, ops[i].url);
    assert i <= j;
  }
}
