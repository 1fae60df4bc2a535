/** `CachingHandler` from helpers/cachinghandler.go: an NFS handler wrapper
    that hands out random UUIDs as file handles and random 64-bit tokens as
    directory-listing verifiers, and remembers both in bounded
    least-recently-used tables. The fresh UUID and the fresh token, which go-nfs
    draws from `uuid.New` and `rand.Uint64`, are parameters here. */
module Helpers {
  import opened Wrappers
  import Lru
  import opened Paths
  import opened Handles
  import opened Verifiers

  class CachingHandler<F, Info> {
    /** Handle to filesystem and path. */
    var activeHandles: HandleCache<F>
    /** Verifier token to directory handle and listing. */
    var activeVerifiers: VerifierCache<Info>
    /** The limit the handle table was created with. */
    var cacheLimit: int

    /** Both tables are well-formed LRU caches and `cacheLimit` is the
        capacity of the handle table. */
    ghost predicate Valid()
      reads this
    {
      Lru.Valid(activeHandles) && Lru.Valid(activeVerifiers) && activeHandles.size == cacheLimit
    }

    /** `NewCachingHandler(h, limit)`: both tables hold `limit` entries. */
    constructor (limit: int)
      requires 0 < limit
      ensures Valid()
      ensures activeHandles == Lru.New(limit) && activeVerifiers == Lru.New(limit)
      ensures HandleLimit() == limit
    {
      activeHandles := Lru.New(limit);
      activeVerifiers := Lru.New(limit);
      cacheLimit := limit;
    }

    /** `NewCachingHandlerWithVerifierLimit(h, limit, verifierLimit)`: the
        verifier table gets its own, usually smaller, capacity. */
    constructor WithVerifierLimit(limit: int, verifierLimit: int)
      requires 0 < limit && 0 < verifierLimit
      ensures Valid()
      ensures activeHandles == Lru.New(limit) && activeVerifiers == Lru.New(verifierLimit)
      ensures HandleLimit() == limit
    {
      activeHandles := Lru.New(limit);
      activeVerifiers := Lru.New(verifierLimit);
      cacheLimit := limit;
    }

    /** `HandleLimit`: how many handles the table keeps before the least
        recently used one is evicted. */
    function HandleLimit(): (r: int)
      reads this
      ensures Valid() ==> r == activeHandles.size && 0 < r
    {
      cacheLimit
    }

    /** `ToHandle(f, path)` with `id` the UUID it draws: the entry becomes the
        newest in the handle table (Handles.RoundTrip: the handle returned
        resolves to `f` and `path`). */
    method ToHandle(f: F, path: seq<string>, id: Uuid) returns (h: seq<bv8>)
      requires Valid()
      modifies this
      ensures Valid()
      ensures activeHandles == Lru.Add(old(activeHandles), id, Entry(f, path))
      ensures activeVerifiers == old(activeVerifiers) && cacheLimit == old(cacheLimit)
      ensures h == MarshalBinary(id)
    {
      activeHandles := Lru.Add(activeHandles, id, Entry(f, path));
      h := MarshalBinary(id);
    }

    /** `FromHandle(fh)`: parses the handle, looks it up (touching it), and on
        a hit walks a snapshot of the keys, oldest first, touching every
        entry whose path is an ancestor of the one found. */
    method FromHandle(fh: seq<bv8>) returns (res: Resolution<F>)
      requires Valid()
      modifies this
      ensures Valid()
      ensures (activeHandles, res) == Resolve(old(activeHandles), fh)
      ensures activeVerifiers == old(activeVerifiers) && cacheLimit == old(cacheLimit)
    {
      var parsed := FromBytes(fh);
      if parsed.Failure? {
        ResolveCases(activeHandles, fh);
        return Resolution(None, [], Some(parsed.error));
      }
      var got := Lru.Get(activeHandles, parsed.value);
      ResolveCases(activeHandles, fh);
      activeHandles := got.0;
      if got.1.None? {
        return Resolution(None, [], Some(NFSStatusStale));
      }
      var e := got.1.value;
      TouchAncestors(e.p);
      return Resolution(Some(e.f), e.p, None);
    }

    /** The scan in `FromHandle`: over a snapshot of the keys, oldest first,
        every entry whose path is an ancestor of `path` is touched. */
    method TouchAncestors(path: seq<string>)
      requires Valid()
      modifies this
      ensures Valid()
      ensures activeHandles == old(activeHandles).(entries := Warmed(old(activeHandles).entries, path))
      ensures activeVerifiers == old(activeVerifiers) && cacheLimit == old(cacheLimit)
    {
      var keys := Lru.Keys(activeHandles);
      ghost var start := activeHandles.entries;
      for i := 0 to |keys|
        invariant Valid() && activeHandles.size == old(activeHandles).size
        invariant activeHandles.entries == NonAncestors(start[..i], path) + start[i..] + Ancestors(start[..i], path)
        invariant activeVerifiers == old(activeVerifiers) && cacheLimit == old(cacheLimit)
      {
        ghost var current := activeHandles.entries;
        ghost var at := |NonAncestors(start[..i], path)|;
        ScanAdvance(start, i, path, current);
        Lru.PeekAt(activeHandles, at);
        var candidate := Lru.Peek(activeHandles, keys[i]);
        var ancestor := HasPrefix(path, candidate.value.p);
        if ancestor {
          Lru.WithoutAt(current, at);
          activeHandles := Lru.Get(activeHandles, keys[i]).0;
        }
      }
      assert start[..|keys|] == start;
    }

    /** `VerifierFor(handle, contents)` with `id` the token it draws: the pair
        becomes the newest in the verifier table, and the token returned
        gives `contents` back to the same handle. */
    method VerifierFor(handle: seq<bv8>, contents: seq<Info>, id: uint64) returns (r: uint64)
      requires Valid()
      modifies this
      ensures Valid()
      ensures activeVerifiers == Lru.Add(old(activeVerifiers), id, Verifier(handle, contents))
      ensures activeHandles == old(activeHandles) && cacheLimit == old(cacheLimit)
      ensures r == id && Lookup(activeVerifiers, handle, r) == Some(contents)
    {
      activeVerifiers := Lru.Add(activeVerifiers, id, Verifier(handle, contents));
      r := id;
      VerifierRoundTrip(old(activeVerifiers), handle, handle, contents, id);
    }

    /** `DataForVerifier(handle, id)`: looks the token up (touching it) and
        returns the listing only when it was issued for `handle`. */
    method DataForVerifier(handle: seq<bv8>, id: uint64) returns (r: Option<seq<Info>>)
      requires Valid()
      modifies this
      ensures Valid()
      ensures r == Lookup(old(activeVerifiers), handle, id)
      ensures activeVerifiers == Lru.Get(old(activeVerifiers), id).0
      ensures activeHandles == old(activeHandles) && cacheLimit == old(cacheLimit)
    {
      var got := Lru.Get(activeVerifiers, id);
      activeVerifiers := got.0;
      if got.1.Some? && got.1.value.handle == handle {
        return Some(got.1.value.contents);
      }
      return None;
    }
  }
}
