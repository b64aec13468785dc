/**
 * The least-recently-used thumbnail cache of `ThumbnailManager` (utils/thumbnail.py):
 * a dictionary from cache keys to thumbnails plus the list `access_order`, oldest
 * first. Making the thumbnail itself is a parameter.
 */
module Thumbnails {
  import opened Wrappers
  import opened Pixels
  import opened Lists

  /**
   * What `_generate_cache_key` hashes: the source image's size and mode and the target
   * size. The digest is kept as the triple it is computed from.
   */
  datatype CacheKey = CacheKey(imageSize: (nat, nat), mode: string, target: (int, int))

  function GenerateCacheKey(image: Raster, mode: string, size: (int, int)): CacheKey {
    CacheKey((image.width, image.height), mode, size)
  }

  /** The cache dictionary and the access order, as one value. */
  datatype CacheState = CacheState(cache: map<CacheKey, Raster>, order: seq<CacheKey>)

  const Empty := CacheState(map[], [])

  /** The invariant of the manager: the cached keys are exactly the keys in the access order, each once. */
  predicate Consistent(st: CacheState) {
    (forall k :: k in st.cache ==> k in st.order) && (forall k :: k in st.order ==> k in st.cache)
    && Distinct(st.order)
  }

  /** `_update_access_order`: the key moved, or added, to the back. */
  function Touched(order: seq<CacheKey>, key: CacheKey): seq<CacheKey> {
    (if key in order then Remove(order, key) else order) + [key]
  }

  /**
   * `_add_to_cache`: when the cache is full the front of the access order is popped and
   * its entry dropped; then the new entry goes in and its key to the back. `None` is the
   * `IndexError` of popping an empty access order.
   */
  function Added(st: CacheState, cacheSize: int, key: CacheKey, thumb: Raster): Option<CacheState> {
    if |st.cache| >= cacheSize then
      if st.order == [] then None
      else
        var oldest := st.order[0];
        var kept := if oldest in st.cache then st.cache - {oldest} else st.cache;
        Some(CacheState(kept[key := thumb], st.order[1..] + [key]))
    else Some(CacheState(st.cache[key := thumb], st.order + [key]))
  }

  /**
   * `get_thumbnail`: a hit returns the cached thumbnail and moves its key to the back; a
   * miss creates the thumbnail and adds it. `None` is the error of adding to a cache of
   * size 0 or less.
   */
  function GetSpec(st: CacheState, cacheSize: int, image: Raster, mode: string, size: (int, int),
                   create: (Raster, (int, int)) -> Raster): Option<(Raster, CacheState)>
  {
    var key := GenerateCacheKey(image, mode, size);
    if key in st.cache then Some((st.cache[key], CacheState(st.cache, Touched(st.order, key))))
    else
      var thumb := create(image, size);
      match Added(st, cacheSize, key, thumb)
      case None => None
      case Some(next) => Some((thumb, next))
  }

  /**
   * A hit keeps the cache and the invariant, puts the key last, and keeps every other
   * key in its old relative order.
   */
  lemma TouchMovesToBack(st: CacheState, key: CacheKey)
    requires Consistent(st) && key in st.cache
    ensures var order := Touched(st.order, key);
      Consistent(CacheState(st.cache, order)) && |order| == |st.order|
      && order == Without(st.order, key) + [key]
  {
    TouchedIsWithout(st.order, key);
    var w := Without(st.order, key);
    WithoutMembers(st.order, key);
    WithoutDistinct(st.order, key);
    AppendDistinct(w, key);
    forall k | k in st.cache ensures k in w + [key] {
      if k != key {
        assert k in w;
      }
    }
  }

  /** In an order without repeats, touching a key present drops its one occurrence and appends it. */
  lemma TouchedIsWithout(order: seq<CacheKey>, key: CacheKey)
    requires Distinct(order) && key in order
    ensures Touched(order, key) == Without(order, key) + [key] && |Without(order, key)| == |order| - 1
  {
    RemoveIsWithout(order, key);
    var i := IndexOf(order, key);
    assert |Remove(order, key)| == |order[..i]| + |order[i + 1..]|;
  }

  /**
   * Adding a key that is not cached fails exactly when the cache is full and empty at
   * once (a size of 0 or less with nothing cached). Otherwise the invariant holds, the
   * new entry is cached and last in the order, every other kept entry is unchanged, and
   * when the cache was full exactly the front key of the order was evicted.
   */
  lemma AddKeepsInvariant(st: CacheState, cacheSize: int, key: CacheKey, thumb: Raster)
    requires Consistent(st) && key !in st.cache
    ensures var r := Added(st, cacheSize, key, thumb);
      (r.None? <==> |st.cache| >= cacheSize && st.cache == map[])
      && (r.Some? ==>
            Consistent(r.value) && key in r.value.cache && r.value.cache[key] == thumb
            && r.value.order[|r.value.order| - 1] == key
            && (forall k :: k in r.value.cache && k != key ==> k in st.cache && r.value.cache[k] == st.cache[k])
            && (|st.cache| >= cacheSize ==>
                  r.value.cache.Keys == st.cache.Keys - {st.order[0]} + {key} && |r.value.cache| == |st.cache|)
            && (|st.cache| < cacheSize ==>
                  r.value.cache.Keys == st.cache.Keys + {key} && |r.value.cache| == |st.cache| + 1))
  {
    var r := Added(st, cacheSize, key, thumb);
    if |st.cache| >= cacheSize {
      if st.order == [] {
        assert st.cache.Keys == {};
      } else {
        var oldest := st.order[0];
        assert oldest in st.cache;
        EvictFront(st, key, thumb);
        assert r == Some(CacheState((st.cache - {oldest})[key := thumb], st.order[1..] + [key]));
      }
    } else {
      InsertWithRoom(st, key, thumb);
      assert r == Some(CacheState(st.cache[key := thumb], st.order + [key]));
    }
  }

  /** An insert into a full cache: the front key's entry is dropped, the rest kept. */
  lemma EvictFront(st: CacheState, key: CacheKey, thumb: Raster)
    requires Consistent(st) && key !in st.cache && st.order != []
    ensures var oldest := st.order[0];
      var next := CacheState((st.cache - {oldest})[key := thumb], st.order[1..] + [key]);
      Consistent(next) && next.cache.Keys == st.cache.Keys - {oldest} + {key}
      && |next.cache| == |st.cache| && next.order[|next.order| - 1] == key
      && forall k :: k in next.cache && k != key ==> k in st.cache && next.cache[k] == st.cache[k]
  {
    var oldest := st.order[0];
    var kept := st.cache - {oldest};
    var next := CacheState(kept[key := thumb], st.order[1..] + [key]);
    DropFront(st.order);
    AppendDistinct(st.order[1..], key);
    assert kept.Keys == st.cache.Keys - {oldest};
    assert next.cache.Keys == kept.Keys + {key};
    assert |kept.Keys| == |st.cache.Keys| - 1;
    forall k | k in next.cache ensures k in next.order {
      if k != key {
        assert k in st.order[1..];
      }
    }
  }

  /** An insert with room to spare: nothing is dropped. */
  lemma InsertWithRoom(st: CacheState, key: CacheKey, thumb: Raster)
    requires Consistent(st) && key !in st.cache
    ensures var next := CacheState(st.cache[key := thumb], st.order + [key]);
      Consistent(next) && next.cache.Keys == st.cache.Keys + {key}
      && |next.cache| == |st.cache| + 1 && next.order[|next.order| - 1] == key
      && forall k :: k in next.cache && k != key ==> k in st.cache && next.cache[k] == st.cache[k]
  {
    AppendDistinct(st.order, key);
  }

  /** With room for at least one entry, an insert never fails and never leaves more entries than the cache size. */
  lemma AddStaysWithinSize(st: CacheState, cacheSize: int, key: CacheKey, thumb: Raster)
    requires Consistent(st) && key !in st.cache && 1 <= cacheSize && |st.cache| <= cacheSize
    ensures var r := Added(st, cacheSize, key, thumb);
      r.Some? && |r.value.cache| <= cacheSize
  {
    AddKeepsInvariant(st, cacheSize, key, thumb);
  }

  /**
   * A hit creates no thumbnail: whatever `create` does, the cached thumbnail comes back
   * and the cache contents stay as they were.
   */
  lemma HitIgnoresCreate(st: CacheState, cacheSize: int, image: Raster, mode: string, size: (int, int),
                         create1: (Raster, (int, int)) -> Raster, create2: (Raster, (int, int)) -> Raster)
    requires Consistent(st) && GenerateCacheKey(image, mode, size) in st.cache
    ensures var r := GetSpec(st, cacheSize, image, mode, size, create1);
      r.Some? && r == GetSpec(st, cacheSize, image, mode, size, create2)
      && r.value.0 == st.cache[GenerateCacheKey(image, mode, size)] && r.value.1.cache == st.cache
      && Consistent(r.value.1)
  {
    TouchMovesToBack(st, GenerateCacheKey(image, mode, size));
  }

  /**
   * The key ignores the pixels: after one image is served, any image of the same size
   * and mode asked for at the same target size gets the same thumbnail.
   */
  lemma SameShapeSharesEntry(st: CacheState, cacheSize: int, a: Raster, b: Raster, mode: string, size: (int, int),
                             create: (Raster, (int, int)) -> Raster)
    requires Consistent(st) && a.width == b.width && a.height == b.height
    requires GetSpec(st, cacheSize, a, mode, size, create).Some?
    ensures var first := GetSpec(st, cacheSize, a, mode, size, create).value;
      var second := GetSpec(first.1, cacheSize, b, mode, size, create);
      second.Some? && second.value.0 == first.0 && second.value.1.cache == first.1.cache
  {
    var key := GenerateCacheKey(a, mode, size);
    assert GenerateCacheKey(b, mode, size) == key;
    if key !in st.cache {
      AddKeepsInvariant(st, cacheSize, key, create(a, size));
    }
  }

  /** An empty cache satisfies the invariant. */
  lemma EmptyIsConsistent()
    ensures Consistent(Empty) && |Empty.cache| == 0
  {
  }

  class ThumbnailManager {
    var cacheSize: int
    var thumbnailCache: map<CacheKey, Raster>
    var accessOrder: seq<CacheKey>

    ghost function State(): CacheState
      reads this
    {
      CacheState(thumbnailCache, accessOrder)
    }

    ghost predicate Valid()
      reads this
    {
      Consistent(State())
    }

    constructor(cacheSize: int)
      ensures Valid() && this.cacheSize == cacheSize && State() == Empty
    {
      this.cacheSize := cacheSize;
      thumbnailCache := map[];
      accessOrder := [];
    }

    /** `get_thumbnail`: the spec's thumbnail and new state, or `None` and no change when adding fails. */
    method GetThumbnail(image: Raster, mode: string, size: (int, int), create: (Raster, (int, int)) -> Raster)
      returns (thumb: Option<Raster>)
      requires Valid()
      modifies this
      ensures Valid() && cacheSize == old(cacheSize)
      ensures var r := GetSpec(old(State()), cacheSize, image, mode, size, create);
        (r.None? ==> thumb.None? && State() == old(State()))
        && (r.Some? ==> thumb == Some(r.value.0) && State() == r.value.1)
    {
      var key := GenerateCacheKey(image, mode, size);
      if key in thumbnailCache {
        TouchMovesToBack(State(), key);
        UpdateAccessOrder(key);
        return Some(thumbnailCache[key]);
      }
      var thumbnail := create(image, size);
      AddKeepsInvariant(State(), cacheSize, key, thumbnail);
      var ok := AddToCache(key, thumbnail);
      if !ok {
        return None;
      }
      thumb := Some(thumbnail);
    }

    /** `_add_to_cache`: `false` is the error of popping an empty access order, with nothing changed. */
    method AddToCache(key: CacheKey, thumbnail: Raster) returns (ok: bool)
      modifies this
      ensures cacheSize == old(cacheSize)
      ensures var r := Added(old(State()), cacheSize, key, thumbnail);
        ok == r.Some? && (if ok then State() == r.value else State() == old(State()))
    {
      if |thumbnailCache| >= cacheSize {
        if accessOrder == [] {
          return false;
        }
        var oldestKey := accessOrder[0];
        accessOrder := accessOrder[1..];
        if oldestKey in thumbnailCache {
          thumbnailCache := thumbnailCache - {oldestKey};
        }
      }
      thumbnailCache := thumbnailCache[key := thumbnail];
      accessOrder := accessOrder + [key];
      ok := true;
    }

    /** `_update_access_order`: the first occurrence of the key removed, then the key appended. */
    method UpdateAccessOrder(key: CacheKey)
      modifies this
      ensures thumbnailCache == old(thumbnailCache) && cacheSize == old(cacheSize)
      ensures accessOrder == Touched(old(accessOrder), key)
    {
      if key in accessOrder {
        var i := 0;
        while accessOrder[i] != key
          invariant 0 <= i < |accessOrder| && key in accessOrder[i..]
          invariant key !in accessOrder[..i]
          decreases |accessOrder| - i
        {
          assert accessOrder[i..] == [accessOrder[i]] + accessOrder[i + 1..];
          i := i + 1;
        }
        assert i == IndexOf(accessOrder, key) by {
          FirstIndexUnique(accessOrder, key, i);
        }
        accessOrder := accessOrder[..i] + accessOrder[i + 1..];
      }
      accessOrder := accessOrder + [key];
    }

    /** `clear_cache`: both structures emptied. */
    method ClearCache()
      modifies this
      ensures State() == Empty && Valid() && cacheSize == old(cacheSize)
    {
      thumbnailCache := map[];
      accessOrder := [];
    }

    /** `get_cache_info`: the number of cached entries and the maximum. */
    method GetCacheInfo() returns (entries: nat, maxSize: int)
      requires Valid()
      ensures entries == |thumbnailCache| == |accessOrder| && maxSize == cacheSize
    {
      CacheSizeIsOrderLength(State());
      entries := |thumbnailCache|;
      maxSize := cacheSize;
    }
  }

  /** Under the invariant the cache holds as many entries as the access order lists. */
  lemma CacheSizeIsOrderLength(st: CacheState)
    requires Consistent(st)
    ensures |st.cache| == |st.order|
  {
    var keys := st.cache.Keys;
    DistinctCard(st.order);
    assert keys == set k | k in st.order;
  }
}
