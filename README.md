# CachingHandler: a verified model of go-nfs's handle cache

go-nfs serves a `billy.Filesystem` over NFS. NFS clients refer to files by
opaque handles. `helpers/cachinghandler.go` turns paths into handles and
back with a table that has a fixed capacity. The file does three things:

- It mints a random UUID for each file and path. The UUID's 16 bytes are the
  handle. The table of handles is a least-recently-used (LRU) cache.
- It resolves a handle back to a filesystem and path. A handle that is not
  16 bytes is refused. A handle that is no longer cached is answered with
  `NFSStatusStale`. On a hit, the lookup touches the entry. It also touches
  every cached entry whose path is an ancestor of the resolved path
  ("ancestor warming"), so parent directories are not evicted before their
  children.
- It hands out random 64-bit verifier tokens for directory listings. These
  live in a second LRU cache. A listing is given back only to the directory
  handle it was issued for.

The model has six modules:

- `Lru` models the `hashicorp/golang-lru` cache both tables use. A cache is
  a value: its entries in recency order, oldest first, with distinct keys,
  plus its capacity.
- `Paths` holds the ancestor test `hasPrefix`.
- `Handles` holds UUID marshalling and parsing, and the order the ancestor
  scan leaves behind. It also holds `Resolve`, the specification of
  `FromHandle`, with the round-trip, staleness and eviction lemmas.
- `Verifiers` holds the verifier lookup and its round trip.
- `Helpers` holds the class `CachingHandler`. Its fields hold the two caches.
  Its methods reassign them, and each method is proved against the
  functions above.
- `Wrappers` holds `Option` and `Result`.

A UUID is a datatype of sixteen bytes, not a 16-element byte sequence. Two
UUIDs are equal exactly when their bytes are, as with Go's `[16]byte`. A
handle on the wire is still a byte sequence: `MarshalBinary` and `FromBytes`
convert between the two. This keeps equality of keys cheap for the prover.

## Model

| member | source | states |
|---|---|---|
| Lru.KeysOf | helpers/cachinghandler.go:71 | `Keys()` (modelled by `Lru.Keys`, which is `KeysOf` of the entries) lists one key per entry, oldest first, each the key of the entry at that position |
| Lru.New | helpers/cachinghandler.go:17-18 | a new cache of positive capacity is valid and empty |
| Lru.Peek | helpers/cachinghandler.go:72 | `Peek` finds a value exactly when the key is cached, and the value found is stored beside it |
| Lru.Get | helpers/cachinghandler.go:69 | `Get` returns what `Peek` would; a miss changes nothing; a hit moves the entry to the newest end; the cache stays valid with the same capacity |
| Lru.Add | helpers/cachinghandler.go:57 | `Add` keeps the cache valid within its capacity; the new entry is the newest, any old entry for the key is gone, and only the oldest entries beyond the capacity are dropped; `Peek` then finds the new value |
| Lru.AddAll | helpers/cachinghandler.go:57 | any run of `Add` calls keeps the cache valid and within its capacity |
| Lru.PeekOfMember | helpers/cachinghandler.go:72 | `Peek` returns exactly the value stored beside the key |
| Lru.SamePeek | helpers/cachinghandler.go:72 | two caches holding the same entries, in any order, answer every `Peek` alike |
| Lru.GetKeepsValues | helpers/cachinghandler.go:69-75 | `Get` only reorders: every key maps to the value it had |
| Lru.GetPermutes | helpers/cachinghandler.go:69-75 | `Get` keeps the same entries, each once |
| Lru.AddKeepsValues | helpers/cachinghandler.go:57 | every other key `Add` keeps still maps to its old value |
| Lru.AddCases | helpers/cachinghandler.go:57 | the three outcomes of `Add`: replace and move to newest, append, or append and evict the oldest when full |
| Lru.AddAllFresh | helpers/cachinghandler.go:57 | adding new keys one by one leaves exactly the newest `size` of the old and new entries: the oldest are evicted first |
| Lru.EvictsOldest | helpers/cachinghandler.go:57 | when the cache is full, adding a new key evicts exactly the oldest key and keeps every other key in order |
| Lru.FillEvicts | helpers/cachinghandler.go:57 | filling an empty cache of capacity `n` with `n + 1` distinct keys evicts the first and keeps the rest in order |
| Lru.AddKeepsAll | helpers/cachinghandler.go:57 | when there is room, or the key is already present, `Add` evicts no key |
| Paths.HasPrefix | helpers/cachinghandler.go:90-100 | `hasPrefix(path, prefix)` holds exactly when `prefix` is no longer than `path` and agrees with it segment by segment |
| Paths.PrefixOfOrder | helpers/cachinghandler.go:90-100 | the ancestor test is reflexive and transitive, and the empty path is an ancestor of every path |
| Handles.MarshalBinary | helpers/cachinghandler.go:58 | a minted handle is 16 bytes and parses back to its UUID |
| Handles.FromBytes | helpers/cachinghandler.go:64-67 | a handle parses exactly when it is 16 bytes; otherwise the error carries its length |
| Handles.ParsedIsMarshalled | helpers/cachinghandler.go:58-64 | a handle that parses is the binary form of the UUID it parses to |
| Handles.WarmedPermutes | helpers/cachinghandler.go:71-77 | the ancestor scan neither adds nor drops an entry |
| Handles.FilterMembers | helpers/cachinghandler.go:74 | the untouched entries are exactly those whose path is not an ancestor, and the touched ones exactly those whose path is |
| Handles.WarmedDistinct | helpers/cachinghandler.go:71-77 | the order after the scan has distinct keys |
| Handles.WarmedValid | helpers/cachinghandler.go:71-77 | the scan leaves a valid table valid |
| Handles.Resolve | helpers/cachinghandler.go:63-83 | `FromHandle`: a handle not 16 bytes gets the parse error, an uncached one `NFSStatusStale`, both leaving the table as it was; a cached one yields its filesystem and path; the table stays valid |
| Handles.ResolveHitOrder | helpers/cachinghandler.go:69-79 | on a hit the other non-ancestors keep their order, the other ancestors follow in theirs, and the resolved entry ends newest |
| Handles.ResolveHit | helpers/cachinghandler.go:69-79 | on a hit, besides the result and order: the table keeps the same entries and every key maps as before |
| Handles.WarmedResolvedLast | helpers/cachinghandler.go:71-77 | the resolved entry, an ancestor of itself and newest when the scan starts, is newest when it ends |
| Handles.RoundTrip | helpers/cachinghandler.go:55-80 | the handle `ToHandle` returns resolves to the filesystem and path it was minted for |
| Handles.RoundTripSurvives | helpers/cachinghandler.go:55-80 | it still resolves after fewer than `limit` further mints of new handles |
| Handles.EvictionMakesStale | helpers/cachinghandler.go:55-82 | after `limit + 1` mints of distinct handles into a new table, the first handle is stale and the lookup changes nothing |
| Handles.WarmingExample | helpers/cachinghandler.go:55-83 | with room for three: mint `docs`, `docs/a.txt`, `tmp`; resolving `docs/a.txt` also touches `docs`, so the next mint evicts `tmp` and `docs` still resolves |
| Verifiers.Lookup | helpers/cachinghandler.go:113-121 | the listing comes back exactly when the token is cached and was issued for the caller's handle, and it is the listing stored |
| Verifiers.VerifierRoundTrip | helpers/cachinghandler.go:107-121 | right after `VerifierFor(handle, contents)`, its token gives `contents` back to that handle and nil to any other |
| Verifiers.LookupAfterTouch | helpers/cachinghandler.go:114 | the touch in `DataForVerifier` changes no later lookup |
| Helpers.CachingHandler.constructor | helpers/cachinghandler.go:16-25 | `NewCachingHandler`: both tables empty with capacity `limit`; `HandleLimit()` is `limit` |
| Helpers.CachingHandler.WithVerifierLimit | helpers/cachinghandler.go:28-37 | `NewCachingHandlerWithVerifierLimit`: the verifier table gets `verifierLimit`; `HandleLimit()` is still `limit` |
| Helpers.CachingHandler.HandleLimit | helpers/cachinghandler.go:86-88 | the limit is the handle table's capacity, and positive |
| Helpers.CachingHandler.ToHandle | helpers/cachinghandler.go:55-60 | the entry is added to the handle table, the verifier table is untouched, and the handle returned is the UUID's 16 bytes |
| Helpers.CachingHandler.FromHandle | helpers/cachinghandler.go:63-83 | the result and the new handle table are those of `Resolve`; the verifier table is untouched |
| Helpers.CachingHandler.TouchAncestors | helpers/cachinghandler.go:71-77 | the scan leaves the non-ancestors in order followed by the ancestors in order |
| Helpers.CachingHandler.VerifierFor | helpers/cachinghandler.go:107-111 | the pair is added to the verifier table, and the token returned gives `contents` back to `handle` |
| Helpers.CachingHandler.DataForVerifier | helpers/cachinghandler.go:113-121 | returns what `Lookup` gives on the table before the call, and touches the token even when the handle does not match |

## Left out

- The embedded `nfs.Handler` and the methods it forwards (helpers/cachinghandler.go:41). They pass through to a handler that is not part of this model.
- `uuid.New` and `rand.Uint64`. The UUID and the token are parameters of `ToHandle` and `VerifierFor`. Nothing assumes them fresh except the lemmas that say so in their requirements.
- UUID collisions between a new id and a cached one. `Add` on a cached key replaces the entry, and the model covers that case, but no lemma estimates how likely it is.
- The locking inside golang-lru and concurrent callers. The model is sequential. With concurrent callers, another request can evict a key between the `Keys()` snapshot and the `Peek` of that key in `FromHandle` (helpers/cachinghandler.go:71-73). `Peek` then returns nil, and the assertion `e.(entry)` panics. The model has no such interleaving.
- golang-lru's hash map and doubly linked list. Only the order and contents that callers can observe are modelled. The eviction callback is not used by the handler and is left out.
- The error `lru.New` returns for a capacity that is not positive. The handler ignores that error and would go on with a nil cache. Here a positive capacity is a requirement of the constructors.
- The Go type assertions `cache.(entry)`, `e.(entry)` and `cache.(verifier)`. Only values of those types are ever stored. In a sequential run every key in the `Keys()` snapshot is still cached when it is peeked, so the assertions always succeed. They have no failure branch here. The concurrent case is the line above.
- Sharing by reference. Go stores the caller's slices, not copies: the `path` given to `ToHandle` (helpers/cachinghandler.go:57), and the `handle` and `contents` given to `VerifierFor` (helpers/cachinghandler.go:109). `FromHandle` returns the stored path (line 79), and the scan reads stored paths when it runs (line 74). `DataForVerifier` compares against the stored handle bytes as they are at lookup time (line 116) and returns the stored listing (line 117). A caller that writes through one of these slices, or appends into a shared backing array, changes what later lookups return and which entries count as ancestors. The model keeps paths, handles and listings as immutable values. So Handles.RoundTrip, Handles.RoundTripSurvives, Verifiers.VerifierRoundTrip and the scan lemmas hold in Go only if no caller writes through those slices.
- Helpers.CachingHandler.DataForVerifier: it returns `Option<seq<Info>>`. Go returns a nil slice both on a miss and when a nil listing was stored, and it cannot tell those apart. The model can: a stored empty listing comes back as `Some([])`.
- `billy.Filesystem` and `fs.FileInfo` are type parameters. The handler only stores them and hands them back.
- A scenario with a limit of 2 in which three minted handles all stay cached cannot happen in this code. Ancestor warming only reorders entries and never raises the capacity. The warming example therefore uses a table with room for three.
