/**
 * The image cache of crates/examples/upstream/image_gallery.rs: a usage list and a map
 * that have to agree, against the move-to-front list of the access history.
 */
module LruCache {
  import opened Wrappers

  type Key = nat

  // ----- Recency --------------------------------------------------------------------

  /** The list without the first occurrence of `k`. */
  function Remove(s: seq<Key>, k: Key): seq<Key> {
    if s == [] then [] else if s[0] == k then s[1..] else [s[0]] + Remove(s[1..], k)
  }

  function Take(s: seq<Key>, n: nat): seq<Key> {
    if |s| <= n then s else s[..n]
  }

  /** The unbounded move-to-front list of a history of accesses. */
  function Recency(history: seq<Key>): seq<Key> {
    if history == [] then []
    else
      var k := history[|history| - 1];
      [k] + Remove(Recency(history[..|history| - 1]), k)
  }

  ghost predicate Distinct(s: seq<Key>) {
    forall i, j :: 0 <= i < j < |s| ==> s[i] != s[j]
  }

  /** The position just after the last access to `k`; 0 if there was none. */
  function LastAccess(history: seq<Key>, k: Key): nat {
    if history == [] then 0
    else if history[|history| - 1] == k then |history|
    else LastAccess(history[..|history| - 1], k)
  }

  lemma {:induction false} LastAccessIs(history: seq<Key>, k: Key)
    ensures k in history <==> LastAccess(history, k) > 0
    ensures k in history ==>
              var p := LastAccess(history, k);
              p <= |history| && history[p - 1] == k && forall j :: p <= j < |history| ==> history[j] != k
  {
    if history != [] {
      var front := history[..|history| - 1];
      LastAccessIs(front, k);
      assert history == front + [history[|front|]];
    }
  }

  lemma {:induction false} RemoveAt(s: seq<Key>, k: Key, p: nat)
    requires p < |s| && s[p] == k && k !in s[..p]
    ensures Remove(s, k) == s[..p] + s[p + 1..]
  {
    if p > 0 {
      assert s[0] == s[..p][0];
      assert s[1..][..p - 1] == s[..p][1..];
      RemoveAt(s[1..], k, p - 1);
    }
  }

  lemma {:induction false} RemoveAbsent(s: seq<Key>, k: Key)
    requires k !in s
    ensures Remove(s, k) == s
  {
    if s != [] { RemoveAbsent(s[1..], k); }
  }

  lemma {:induction false} FirstPosition(s: seq<Key>, k: Key) returns (p: nat)
    requires k in s
    ensures p < |s| && s[p] == k && k !in s[..p]
  {
    if s[0] == k {
      p := 0;
    } else {
      p := FirstPosition(s[1..], k);
      p := p + 1;
      assert s[..p] == [s[0]] + s[1..][..p - 1];
    }
  }

  /** The later the last access, the further to the front; so no key is there twice. */
  ghost predicate LatestFirst(history: seq<Key>, s: seq<Key>) {
    forall i, j :: 0 <= i < j < |s| ==> LastAccess(history, s[i]) > LastAccess(history, s[j])
  }

  lemma {:induction false} LastAccessBound(history: seq<Key>, k: Key)
    ensures LastAccess(history, k) <= |history|
  {
    if history != [] && history[|history| - 1] != k { LastAccessBound(history[..|history| - 1], k); }
  }

  /** Removing a key keeps the others, in their order. */
  lemma RemoveKeepsOrder(history: seq<Key>, s: seq<Key>, k: Key)
    requires LatestFirst(history, s)
    ensures LatestFirst(history, Remove(s, k))
    ensures forall x :: x in Remove(s, k) <==> x in s && x != k
  {
    hide Remove;
    hide LastAccess;
    if k in s {
      var p := FirstPosition(s, k);
      RemoveAt(s, k, p);
      DropKeepsOrder(history, s, p);
    } else {
      RemoveAbsent(s, k);
    }
  }

  lemma DropKeepsOrder(history: seq<Key>, s: seq<Key>, p: nat)
    requires LatestFirst(history, s) && p < |s|
    ensures LatestFirst(history, s[..p] + s[p + 1..])
    ensures forall x :: x in s[..p] + s[p + 1..] <==> x in s && x != s[p]
  {}

  /** What the recency list is: exactly the accessed keys, the last accessed first. */
  lemma {:induction false} RecencyOrdersByLastAccess(history: seq<Key>)
    ensures forall k :: k in Recency(history) <==> k in history
    ensures LatestFirst(history, Recency(history))
  {
    if history != [] {
      var front, k := history[..|history| - 1], history[|history| - 1];
      RecencyOrdersByLastAccess(front);
      RemoveKeepsOrder(front, Recency(front), k);
      var rest := Remove(Recency(front), k);
      hide Remove;
      hide Recency;
      assert history == front + [k];
      forall i | 0 <= i < |rest| ensures LastAccess(history, rest[i]) == LastAccess(front, rest[i]) < |history| {
        assert rest[i] in rest;
        LastAccessBound(front, rest[i]);
      }
    }
  }

  lemma LatestFirstIsDistinct(history: seq<Key>, s: seq<Key>)
    requires LatestFirst(history, s)
    ensures Distinct(s)
  {}

  /** Moving a key found at position `p` to the front of the truncated list. */
  lemma HitStep(full: seq<Key>, n: nat, k: Key, p: nat)
    requires p < |Take(full, n)| && Take(full, n)[p] == k && k !in Take(full, n)[..p]
    ensures [k] + (Take(full, n)[..p] + Take(full, n)[p + 1..]) == Take([k] + Remove(full, k), n)
  {
    assert Take(full, n)[..p] == full[..p];
    RemoveAt(full, k, p);
    assert Take(full, n)[p + 1..] == Take(full[p + 1..], |Take(full, n)| - p - 1);
  }

  /** Putting a missing key in front, after dropping the last one if the list is full. */
  lemma MissStep(full: seq<Key>, n: nat, k: Key)
    requires n > 0 && k !in Take(full, n)
    ensures [k] + (if |Take(full, n)| == n then Take(full, n)[..n - 1] else Take(full, n)) == Take([k] + Remove(full, k), n)
  {
    if k in full {
      var p := FirstPosition(full, k);
      RemoveAt(full, k, p);
    } else {
      RemoveAbsent(full, k);
    }
  }

  // ----- The cache ------------------------------------------------------------------

  datatype Outcome<V> =
    | Hit(item: V)
    | Miss(evicted: Option<V>)
    | Panic

  function ToSet(s: seq<Key>): set<Key> { set k | k in s }

  lemma {:induction false} DistinctSize(s: seq<Key>)
    requires Distinct(s)
    ensures |ToSet(s)| == |s|
  {
    if s != [] {
      var front := s[..|s| - 1];
      DistinctSize(front);
      assert ToSet(s) == ToSet(front) + {s[|s| - 1]};
    }
  }

  class SimpleLruCache<V> {
    const maxItems: nat
    var usages: seq<Key>
    var cache: map<Key, V>

    /** The keys of the completed loads. */
    ghost var history: seq<Key>

    ghost predicate Valid()
      reads this
    {
      && usages == Take(Recency(history), maxItems)
      && cache.Keys == ToSet(usages)
      && (maxItems == 0 ==> history == [])
    }

    constructor (maxItems: nat)
      ensures Valid() && this.maxItems == maxItems && history == []
    {
      this.maxItems := maxItems;
      usages, cache, history := [], map[], [];
    }

    /** The two assertions at the start of `load` hold, and there are no duplicates. */
    lemma InSync()
      requires Valid()
      ensures |usages| == |cache| <= maxItems && Distinct(usages)
    {
      RecencyOrdersByLastAccess(history);
      LatestFirstIsDistinct(history, Recency(history));
      DistinctSize(usages);
      assert |cache| == |cache.Keys|;
    }

    /** Looks a key up; on a miss `loading` is put in. Panics exactly when the cache may hold nothing. */
    method Load(hash: Key, loading: V) returns (r: Outcome<V>)
      requires Valid()
      modifies this
      ensures Valid()
      ensures r.Panic? <==> maxItems == 0
      ensures r.Panic? ==> history == old(history) && usages == old(usages) && cache == old(cache)
      ensures !r.Panic? ==> history == old(history) + [hash] && usages != [] && usages[0] == hash
      ensures r.Hit? <==> hash in old(cache)
      ensures r.Hit? ==> r.item == old(cache)[hash] && cache == old(cache)
      ensures r.Miss? && |old(usages)| < maxItems ==> r.evicted == None && cache == old(cache)[hash := loading]
      ensures r.Miss? && |old(usages)| >= maxItems ==>
                && |old(usages)| == maxItems && old(usages)[maxItems - 1] in old(cache)
                && r.evicted == Some(old(cache)[old(usages)[maxItems - 1]])
                && cache == (old(cache) - {old(usages)[maxItems - 1]})[hash := loading]
    {
      InSync();
      if hash in cache {
        MoveToFront(hash);
        return Hit(cache[hash]);
      }
      if |usages| == maxItems && usages == [] {
        return Panic;
      }
      r := Admit(hash, loading);
    }

    method MoveToFront(hash: Key)
      requires Valid() && hash in cache
      modifies this`usages, this`history
      ensures Valid() && history == old(history) + [hash] && usages != [] && usages[0] == hash
    {
      hide Remove;
      ghost var before, full := usages, Recency(history);
      var currentIx := IndexOf(hash);
      HitStep(full, maxItems, hash, currentIx);
      SameMembers(before, currentIx);
      usages := usages[..currentIx] + usages[currentIx + 1..];
      usages := [hash] + usages;
      assert (history + [hash])[..|history|] == history;
      history := history + [hash];
      hide Recency;
      hide Take;
    }

    method Admit(hash: Key, loading: V) returns (r: Outcome<V>)
      requires Valid() && hash !in cache && maxItems > 0
      modifies this
      ensures Valid() && history == old(history) + [hash] && usages != [] && usages[0] == hash && r.Miss?
      ensures |old(usages)| < maxItems ==> r.evicted == None && cache == old(cache)[hash := loading]
      ensures |old(usages)| >= maxItems ==>
                && |old(usages)| == maxItems && old(usages)[maxItems - 1] in old(cache)
                && r.evicted == Some(old(cache)[old(usages)[maxItems - 1]])
                && cache == (old(cache) - {old(usages)[maxItems - 1]})[hash := loading]
    {
      hide Remove;
      hide ToSet;
      InSync();
      assert hash !in usages && forall k :: k in usages ==> k in cache by { ToSetHas(usages); }
      MissStep(Recency(history), maxItems, hash);
      assert (history + [hash])[..|history|] == history;
      r := Miss(None);
      if |usages| == maxItems {
        var oldest := usages[|usages| - 1];
        EvictKeys(cache, usages);
        usages := usages[..|usages| - 1];
        r := Miss(Some(cache[oldest]));
        cache := cache - {oldest};
      }
      AdmitKeys(cache, usages, hash, loading);
      cache := cache[hash := loading];
      usages := [hash] + usages;
      history := history + [hash];
    }

    method IndexOf(hash: Key) returns (p: nat)
      requires hash in usages
      ensures p < |usages| && usages[p] == hash && hash !in usages[..p]
    {
      p := 0;
      while usages[p] != hash
        invariant p < |usages| && hash !in usages[..p]
        decreases |usages| - p
      {
        p := p + 1;
        assert usages[..p] == usages[..p - 1] + [usages[p - 1]];
      }
    }
  }

  lemma SameMembers(s: seq<Key>, p: nat)
    requires p < |s|
    ensures ToSet([s[p]] + (s[..p] + s[p + 1..])) == ToSet(s)
  {}

  lemma ToSetHas(s: seq<Key>)
    ensures forall k :: k in ToSet(s) <==> k in s
  {}

  lemma AdmitKeys<V>(cache: map<Key, V>, usages: seq<Key>, hash: Key, loading: V)
    requires cache.Keys == ToSet(usages)
    ensures cache[hash := loading].Keys == ToSet([hash] + usages)
  {}

  lemma EvictKeys<V>(cache: map<Key, V>, usages: seq<Key>)
    requires cache.Keys == ToSet(usages) && usages != [] && Distinct(usages)
    ensures (cache - {usages[|usages| - 1]}).Keys == ToSet(usages[..|usages| - 1])
  {}

  /**
   * Of two caches that served the same accesses, the smaller one lists a prefix of what the
   * larger one lists and holds none but its keys.
   */
  lemma StackInclusion<V>(small: SimpleLruCache<V>, large: SimpleLruCache<V>)
    requires small.Valid() && large.Valid() && small.history == large.history
    requires small.maxItems <= large.maxItems
    ensures small.usages <= large.usages && small.cache.Keys <= large.cache.Keys
  {
    assert forall k :: k in small.usages ==> k in large.usages;
  }

  /**
   * Loading a list of keys into a new cache: a key is found exactly when it is among the
   * `maxItems` most recently loaded ones.
   */
  method LoadAll<V>(maxItems: nat, keys: seq<Key>, loading: seq<V>) returns (hits: seq<bool>)
    requires maxItems > 0 && |loading| == |keys|
    ensures |hits| == |keys|
    ensures forall k :: 0 <= k < |keys| ==> (hits[k] <==> keys[k] in Take(Recency(keys[..k]), maxItems))
  {
    hide Take;
    hide Recency;
    var images := new SimpleLruCache<V>(maxItems);
    hits := [];
    for i := 0 to |keys|
      invariant fresh(images) && images.Valid() && images.maxItems == maxItems
      invariant images.history == keys[..i] && |hits| == i
      invariant forall k :: 0 <= k < i ==> (hits[k] <==> keys[k] in Take(Recency(keys[..k]), maxItems))
    {
      InUsages(images, keys[i]);
      var r := images.Load(keys[i], loading[i]);
      hits := hits + [r.Hit?];
    }
  }

  lemma InUsages<V>(images: SimpleLruCache<V>, k: Key)
    requires images.Valid()
    ensures k in images.cache <==> k in Take(Recency(images.history), images.maxItems)
  {
    assert k in images.cache <==> k in images.cache.Keys;
  }
}
