/** The verifier table: random 64-bit tokens mapped to the directory handle
    they were issued for and the listing captured with them (`VerifierFor`,
    `DataForVerifier` in helpers/cachinghandler.go). The listing's entries are
    a type parameter `Info`: the handler only stores and returns them. */
module Verifiers {
  import opened Wrappers
  import Lru

  /** Go's `uint64`, the type of `rand.Uint64()`. */
  type uint64 = x: int | 0 <= x < 0x1_0000_0000_0000_0000

  /** A directory handle and the listing captured for it. */
  datatype Verifier<Info> = Verifier(handle: seq<bv8>, contents: seq<Info>)

  type VerifierCache<Info> = Lru.Cache<uint64, Verifier<Info>>

  /** What `DataForVerifier(handle, id)` returns: the listing stored under
      `id`, but only to a caller presenting the very handle it was issued for;
      an unknown token and a handle mismatch both give nil. */
  function Lookup<Info>(c: VerifierCache<Info>, handle: seq<bv8>, id: uint64): (r: Option<seq<Info>>)
    ensures r.Some? <==> Lru.Contains(c, id) && Lru.Peek(c, id).value.handle == handle
    ensures r.Some? ==> Lru.Peek(c, id) == Some(Verifier(handle, r.value))
  {
    match Lru.Peek(c, id)
    case None => None
    case Some(v) => if v.handle == handle then Some(v.contents) else None
  }

  /** Right after `VerifierFor(handle, contents)` returned `id`, presenting
      the same handle and `id` gives back `contents`, and presenting any other
      handle gives nil. */
  lemma VerifierRoundTrip<Info>(c: VerifierCache<Info>, handle: seq<bv8>, other: seq<bv8>, contents: seq<Info>, id: uint64)
    requires Lru.Valid(c)
    ensures Lookup(Lru.Add(c, id, Verifier(handle, contents)), handle, id) == Some(contents)
    ensures other != handle ==> Lookup(Lru.Add(c, id, Verifier(handle, contents)), other, id) == None
  {
    var c' := Lru.Add(c, id, Verifier(handle, contents));
    assert Lru.Peek(c', id) == Some(Verifier(handle, contents));
  }

  /** The touch done by `DataForVerifier` changes recency only: every later
      lookup, of any token with any handle, answers as before. */
  lemma LookupAfterTouch<Info>(c: VerifierCache<Info>, id: uint64, handle: seq<bv8>, id': uint64)
    requires Lru.Valid(c)
    ensures Lookup(Lru.Get(c, id).0, handle, id') == Lookup(c, handle, id')
  {
    Lru.GetKeepsValues(c, id);
  }
}
