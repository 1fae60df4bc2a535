/** The handle table: 16-byte UUID handles mapped to the filesystem and path
    they were minted for (`ToHandle`, `FromHandle` in
    helpers/cachinghandler.go). This module holds the values and the
    functions that specify the handler's methods; the methods themselves are
    in module Helpers. The filesystem is a type parameter `F`: the handler only
    stores it and hands it back. */
module Handles {
  import opened Wrappers
  import Lru
  import opened Paths

  /** A UUID: sixteen bytes compared by value, as Go's `[16]byte`. */
  datatype Uuid = Uuid(
    b0: bv8, b1: bv8, b2: bv8, b3: bv8, b4: bv8, b5: bv8, b6: bv8, b7: bv8,
    b8: bv8, b9: bv8, b10: bv8, b11: bv8, b12: bv8, b13: bv8, b14: bv8, b15: bv8)

  /** The errors `FromHandle` can return: the UUID parser's length error and
      the NFS status for a handle that no longer resolves. */
  datatype Error = InvalidUuidLength(got: nat) | NFSStatusStale

  /** What a handle stands for: a filesystem and a path within it. */
  datatype Entry<F> = Entry(f: F, p: seq<string>)

  /** The three results of `FromHandle`: filesystem (nil when absent), path and
      error (nil when absent). */
  datatype Resolution<F> = Resolution(f: Option<F>, p: seq<string>, err: Option<Error>)

  type HandleCache<F> = Lru.Cache<Uuid, Entry<F>>

  /** `uuid.MarshalBinary`: the handle sent to clients, the sixteen bytes in
      order. */
  function MarshalBinary(id: Uuid): (b: seq<bv8>)
    ensures |b| == 16 && FromBytes(b) == Success(id)
  {
    [id.b0, id.b1, id.b2, id.b3, id.b4, id.b5, id.b6, id.b7,
     id.b8, id.b9, id.b10, id.b11, id.b12, id.b13, id.b14, id.b15]
  }

  /** `uuid.FromBytes`: only a 16-byte handle parses. */
  function FromBytes(b: seq<bv8>): (r: Result<Uuid, Error>)
    ensures r.Success? <==> |b| == 16
    ensures r.Failure? ==> r.error == InvalidUuidLength(|b|)
  {
    if |b| != 16 then Failure(InvalidUuidLength(|b|))
    else Success(Uuid(b[0], b[1], b[2], b[3], b[4], b[5], b[6], b[7],
                      b[8], b[9], b[10], b[11], b[12], b[13], b[14], b[15]))
  }

  /** A parsed handle is the binary form of the id it parses to. */
  lemma ParsedIsMarshalled(b: seq<bv8>)
    requires FromBytes(b).Success?
    ensures MarshalBinary(FromBytes(b).value) == b
  {
  }

  // ---------------------------------------------------------------------
  // The order the ancestor scan leaves behind

  /** The entries whose path is not an ancestor of (nor equal to) `path`, in
      their order. */
  function NonAncestors<F>(es: seq<(Uuid, Entry<F>)>, path: seq<string>): (r: seq<(Uuid, Entry<F>)>)
  {
    if es == [] then []
    else
      var init, last := es[..|es| - 1], es[|es| - 1];
      NonAncestors(init, path) + (if PrefixOf(last.1.p, path) then [] else [last])
  }

  /** The entries whose path is an ancestor of `path` or `path` itself, in
      their order. */
  function Ancestors<F>(es: seq<(Uuid, Entry<F>)>, path: seq<string>): (r: seq<(Uuid, Entry<F>)>)
  {
    if es == [] then []
    else
      var init, last := es[..|es| - 1], es[|es| - 1];
      Ancestors(init, path) + (if PrefixOf(last.1.p, path) then [last] else [])
  }

  /** The recency order after touching, oldest first, every entry whose path
      is an ancestor of `path`: the untouched entries keep their order and the
      touched ones follow in theirs. */
  function Warmed<F>(es: seq<(Uuid, Entry<F>)>, path: seq<string>): seq<(Uuid, Entry<F>)> {
    NonAncestors(es, path) + Ancestors(es, path)
  }

  /** Reordering by the ancestor scan neither adds nor drops an entry. */
  lemma {:induction false} WarmedPermutes<F>(es: seq<(Uuid, Entry<F>)>, path: seq<string>)
    ensures multiset(Warmed(es, path)) == multiset(es)
  {
    if es != [] {
      var init, last := es[..|es| - 1], es[|es| - 1];
      assert es == init + [last];
      WarmedPermutes(init, path);
    }
  }

  /** The two filters split the entries by whether their path is an ancestor
      of `path`: each keeps exactly the entries on its side. */
  lemma {:induction false} FilterMembers<F>(es: seq<(Uuid, Entry<F>)>, path: seq<string>)
    ensures forall i :: 0 <= i < |NonAncestors(es, path)| ==>
              NonAncestors(es, path)[i] in es && !PrefixOf(NonAncestors(es, path)[i].1.p, path)
    ensures forall i :: 0 <= i < |Ancestors(es, path)| ==>
              Ancestors(es, path)[i] in es && PrefixOf(Ancestors(es, path)[i].1.p, path)
    ensures forall i :: 0 <= i < |es| && !PrefixOf(es[i].1.p, path) ==> es[i] in NonAncestors(es, path)
    ensures forall i :: 0 <= i < |es| && PrefixOf(es[i].1.p, path) ==> es[i] in Ancestors(es, path)
  {
    if es != [] {
      var init, last := es[..|es| - 1], es[|es| - 1];
      assert es == init + [last];
      FilterMembers(init, path);
      forall i | 0 <= i < |es| - 1 ensures es[i] == init[i] { }
    }
  }

  /** Filtering keeps keys distinct. */
  lemma {:induction false} FiltersDistinct<F>(es: seq<(Uuid, Entry<F>)>, path: seq<string>)
    requires Lru.DistinctKeys(es)
    ensures Lru.DistinctKeys(NonAncestors(es, path)) && Lru.DistinctKeys(Ancestors(es, path))
  {
    if es != [] {
      var init, last := es[..|es| - 1], es[|es| - 1];
      Lru.DistinctPrefix(es, |es| - 1);
      Lru.DistinctKeysElim(es);
      FiltersDistinct(init, path);
      FilterMembers(init, path);
      var n, a := NonAncestors(init, path), Ancestors(init, path);
      forall i | 0 <= i < |n| ensures n[i].0 != last.0 {
        var j :| 0 <= j < |init| && init[j] == n[i];
        assert es[j] == init[j];
      }
      forall i | 0 <= i < |a| ensures a[i].0 != last.0 {
        var j :| 0 <= j < |init| && init[j] == a[i];
        assert es[j] == init[j];
      }
      Lru.DistinctAppend(n, last);
      Lru.DistinctAppend(a, last);
      assert es[..|es| - 1] == init;
      if PrefixOf(last.1.p, path) {
        assert NonAncestors(es, path) == n && Ancestors(es, path) == a + [last];
      } else {
        assert NonAncestors(es, path) == n + [last] && Ancestors(es, path) == a;
      }
    }
  }

  /** The ancestor scan keeps keys distinct. */
  lemma WarmedDistinct<F>(es: seq<(Uuid, Entry<F>)>, path: seq<string>)
    requires Lru.DistinctKeys(es)
    ensures Lru.DistinctKeys(Warmed(es, path))
  {
    var n, a := NonAncestors(es, path), Ancestors(es, path);
    FiltersDistinct(es, path);
    FilterMembers(es, path);
    forall i, j | 0 <= i < |n| && 0 <= j < |a| ensures n[i].0 != a[j].0 {
      Lru.DifferentEntriesDifferentKeys(es, n[i], a[j]);
    }
    Lru.DistinctConcat(n, a);
  }

  /** One step of the scan over the keys `es`, oldest first: the entry at `i`
      joins the touched ones when its path is an ancestor of `path`, the
      untouched ones otherwise. */
  lemma ScanStep<F>(es: seq<(Uuid, Entry<F>)>, i: nat, path: seq<string>)
    requires i < |es|
    ensures PrefixOf(es[i].1.p, path) ==>
              NonAncestors(es[..i + 1], path) == NonAncestors(es[..i], path) &&
              Ancestors(es[..i + 1], path) == Ancestors(es[..i], path) + [es[i]]
    ensures !PrefixOf(es[i].1.p, path) ==>
              NonAncestors(es[..i + 1], path) == NonAncestors(es[..i], path) + [es[i]] &&
              Ancestors(es[..i + 1], path) == Ancestors(es[..i], path)
  {
    assert es[..i + 1][..i] == es[..i];
  }

  /** What `FromHandle`'s scan holds after visiting `start[..i]`: the
      untouched entries, then the ones not yet visited, then the touched ones.
      Visiting `start[i]` finds it right after the untouched ones, and
      touching it (moving it to the end) when it is an ancestor, or leaving it
      otherwise, gives the same arrangement for `start[..i + 1]`. */
  lemma ScanAdvance<F>(start: seq<(Uuid, Entry<F>)>, i: nat, path: seq<string>, current: seq<(Uuid, Entry<F>)>)
    requires i < |start|
    requires current == NonAncestors(start[..i], path) + start[i..] + Ancestors(start[..i], path)
    ensures var before := NonAncestors(start[..i], path);
            && |before| < |current| && current[|before|] == start[i]
            && (PrefixOf(start[i].1.p, path) ==>
                  current[..|before|] + current[|before| + 1..] + [start[i]] ==
                  NonAncestors(start[..i + 1], path) + start[i + 1..] + Ancestors(start[..i + 1], path))
            && (!PrefixOf(start[i].1.p, path) ==>
                  current == NonAncestors(start[..i + 1], path) + start[i + 1..] + Ancestors(start[..i + 1], path))
  {
    var before, after := NonAncestors(start[..i], path), Ancestors(start[..i], path);
    ScanStep(start, i, path);
    assert start[i..] == [start[i]] + start[i + 1..];
    assert current == before + [start[i]] + (start[i + 1..] + after);
    assert current[..|before|] == before;
    assert current[|before| + 1..] == start[i + 1..] + after;
  }

  /** The scan leaves a valid table valid. */
  lemma WarmedValid<F>(c: HandleCache<F>, path: seq<string>)
    requires Lru.Valid(c)
    ensures Lru.Valid(c.(entries := Warmed(c.entries, path)))
  {
    WarmedPermutes(c.entries, path);
    WarmedDistinct(c.entries, path);
    assert |Warmed(c.entries, path)| == |multiset(c.entries)|;
  }

  // ---------------------------------------------------------------------
  // FromHandle

  /** What `FromHandle(fh)` returns and the handle table it leaves: a handle
      that is not 16 bytes is refused with the parser's error, an unknown one
      with NFSStatusStale, both leaving the table as it was; a known one
      yields its filesystem and path, after the entry and every cached
      ancestor of its path have been touched. */
  function Resolve<F>(c: HandleCache<F>, fh: seq<bv8>): (r: (HandleCache<F>, Resolution<F>))
    requires Lru.Valid(c)
    ensures Lru.Valid(r.0) && r.0.size == c.size
    ensures |fh| != 16 ==> r == (c, Resolution(None, [], Some(InvalidUuidLength(|fh|))))
    ensures |fh| == 16 && !Lru.Contains(c, FromBytes(fh).value) ==>
              r == (c, Resolution(None, [], Some(NFSStatusStale)))
    ensures |fh| == 16 && Lru.Contains(c, FromBytes(fh).value) ==>
              var e := Lru.Peek(c, FromBytes(fh).value).value;
              r.1 == Resolution(Some(e.f), e.p, None)
  {
    match FromBytes(fh)
    case Failure(err) => (c, Resolution(None, [], Some(err)))
    case Success(id) =>
      var got := Lru.Get(c, id);
      match got.1
      case None => (got.0, Resolution(None, [], Some(NFSStatusStale)))
      case Some(e) =>
        WarmedValid(got.0, e.p);
        (got.0.(entries := Warmed(got.0.entries, e.p)), Resolution(Some(e.f), e.p, None))
  }

  /** The three outcomes of Resolve, as `FromHandle` produces them step by
      step. */
  lemma ResolveCases<F>(c: HandleCache<F>, fh: seq<bv8>)
    requires Lru.Valid(c)
    ensures FromBytes(fh).Failure? ==> Resolve(c, fh) == (c, Resolution(None, [], Some(FromBytes(fh).error)))
    ensures FromBytes(fh).Success? ==>
              var got := Lru.Get(c, FromBytes(fh).value);
              && (got.1.None? ==> Resolve(c, fh) == (got.0, Resolution(None, [], Some(NFSStatusStale))))
              && (got.1.Some? ==>
                    var e := got.1.value;
                    Resolve(c, fh) == (got.0.(entries := Warmed(got.0.entries, e.p)), Resolution(Some(e.f), e.p, None)))
  {
  }

  /** A hit reorders and nothing else: the other entries whose path is not an
      ancestor keep their order, the other ancestors follow in theirs, the
      resolved entry ends newest, and every key keeps its value. */
  lemma ResolveHitOrder<F>(c: HandleCache<F>, id: Uuid, e: Entry<F>)
    requires Lru.Valid(c) && Lru.Peek(c, id) == Some(e)
    ensures var (c', res) := Resolve(c, MarshalBinary(id));
            var others := Lru.Without(c.entries, id);
            && res == Resolution(Some(e.f), e.p, None)
            && c'.entries == NonAncestors(others, e.p) + Ancestors(others, e.p) + [(id, e)]
  {
    var others := Lru.Without(c.entries, id);
    var c' := Resolve(c, MarshalBinary(id)).0;
    assert c'.entries == Warmed(others + [(id, e)], e.p);
    WarmedResolvedLast(others, (id, e));
  }

  /** ResolveHitOrder with the resulting order given by the caller, so that
      a concrete table can be checked against it. */
  lemma ResolveHitTo<F>(c: HandleCache<F>, id: Uuid, e: Entry<F>, expected: seq<(Uuid, Entry<F>)>)
    requires Lru.Valid(c) && Lru.Peek(c, id) == Some(e)
    requires Warmed(Lru.Without(c.entries, id), e.p) + [(id, e)] == expected
    ensures Resolve(c, MarshalBinary(id)).0.entries == expected
    ensures Resolve(c, MarshalBinary(id)).1 == Resolution(Some(e.f), e.p, None)
  {
    ResolveHitOrder(c, id, e);
  }

  /** A hit, in full: the result, the order it leaves, and that the table
      keeps the same entries with every key mapped as before. */
  lemma ResolveHit<F>(c: HandleCache<F>, id: Uuid, e: Entry<F>)
    requires Lru.Valid(c) && Lru.Peek(c, id) == Some(e)
    ensures var (c', res) := Resolve(c, MarshalBinary(id));
            var others := Lru.Without(c.entries, id);
            && res == Resolution(Some(e.f), e.p, None)
            && c'.entries == NonAncestors(others, e.p) + Ancestors(others, e.p) + [(id, e)]
            && multiset(c'.entries) == multiset(c.entries)
            && (forall k :: Lru.Peek(c', k) == Lru.Peek(c, k))
  {
    var got := Lru.Get(c, id);
    var others := Lru.Without(c.entries, id);
    var c' := Resolve(c, MarshalBinary(id)).0;
    assert c'.entries == Warmed(others + [(id, e)], e.p);
    WarmedResolvedLast(others, (id, e));
    WarmedPermutes(got.0.entries, e.p);
    Lru.GetPermutes(c, id);
    Lru.SamePeek(c', c);
  }

  /** The resolved entry, which is its own ancestor and the newest entry when
      the scan starts, is still the newest when it ends. */
  lemma WarmedResolvedLast<F>(others: seq<(Uuid, Entry<F>)>, x: (Uuid, Entry<F>))
    ensures Warmed(others + [x], x.1.p) == NonAncestors(others, x.1.p) + Ancestors(others, x.1.p) + [x]
  {
    var es := others + [x];
    assert es[..|es| - 1] == others;
    PrefixOfOrder(x.1.p, x.1.p, x.1.p);
  }

  // ---------------------------------------------------------------------
  // Minting and resolving together

  /** `ToHandle` followed by `FromHandle` on the handle it returned gives back
      the filesystem and path, whatever the table held before. */
  lemma RoundTrip<F>(c: HandleCache<F>, f: F, path: seq<string>, id: Uuid)
    requires Lru.Valid(c)
    ensures Resolve(Lru.Add(c, id, Entry(f, path)), MarshalBinary(id)).1 == Resolution(Some(f), path, None)
  {
    var c' := Lru.Add(c, id, Entry(f, path));
    assert Lru.Contains(c', id);
  }

  /** The round trip survives up to `limit - 1` further mints of fresh
      handles: the new entry is the newest, and each mint evicts at most the
      oldest entry. */
  lemma {:induction false} RoundTripSurvives<F>(c: HandleCache<F>, id: Uuid, e: Entry<F>, later: seq<(Uuid, Entry<F>)>)
    requires Lru.Valid(c)
    requires Lru.DistinctKeys(Lru.Add(c, id, e).entries + later)
    requires |later| < c.size
    ensures Resolve(Lru.AddAll(Lru.Add(c, id, e), later), MarshalBinary(id)).1 == Resolution(Some(e.f), e.p, None)
  {
    var c1 := Lru.Add(c, id, e);
    var all := c1.entries + later;
    Lru.AddAllFresh(c1, later);
    var c2 := Lru.AddAll(c1, later);
    var last := |c1.entries| - 1;
    assert c1.entries[last] == (id, e);
    assert all[last] == (id, e);
    var start := |all| - |c2.entries|;
    assert start <= last;
    assert c2.entries[last - start] == (id, e);
    Lru.PeekOfMember(c2, id, e);
  }

  /** Minting `limit + 1` distinct handles into a fresh table of that limit
      makes the first one stale. */
  lemma EvictionMakesStale<F>(limit: int, mints: seq<(Uuid, Entry<F>)>)
    requires 0 < limit && |mints| == limit + 1 && Lru.DistinctKeys(mints)
    ensures var c := Lru.AddAll(Lru.New(limit), mints);
            Resolve(c, MarshalBinary(mints[0].0)) == (c, Resolution(None, [], Some(NFSStatusStale)))
  {
    Lru.FillEvicts(limit, mints);
  }

  /** Ancestor warming at work in a table with room for three handles:
      `docs`, `docs/a.txt` and `tmp` are minted in that order; resolving
      `docs/a.txt` touches `docs` as well, so the next mint evicts `tmp`, the
      least recently used, and `docs` still resolves. */
  lemma WarmingExample<F>(fs: F, u1: Uuid, u2: Uuid, u3: Uuid, u4: Uuid)
    requires u1 != u2 && u1 != u3 && u1 != u4 && u2 != u3 && u2 != u4 && u3 != u4
    ensures var docs, file, tmp := Entry(fs, ["docs"]), Entry(fs, ["docs", "a.txt"]), Entry(fs, ["tmp"]);
            var c3 := Lru.AddAll(Lru.New(3), [(u1, docs), (u2, file), (u3, tmp)]);
            var (c4, res) := Resolve(c3, MarshalBinary(u2));
            var c5 := Lru.Add(c4, u4, Entry(fs, ["tmp", "b.txt"]));
            && res == Resolution(Some(fs), ["docs", "a.txt"], None)
            && Lru.Keys(c5) == [u1, u2, u4]
            && Resolve(c5, MarshalBinary(u3)).1 == Resolution(None, [], Some(NFSStatusStale))
            && Resolve(c5, MarshalBinary(u1)).1 == Resolution(Some(fs), ["docs"], None)
  {
    var docs, file, tmp := Entry(fs, ["docs"]), Entry(fs, ["docs", "a.txt"]), Entry(fs, ["tmp"]);
    var mints := [(u1, docs), (u2, file), (u3, tmp)];
    var c0: HandleCache<F> := Lru.New(3);
    assert c0.entries + mints == mints;
    Lru.AddAllFresh(c0, mints);
    var c3 := Lru.AddAll(c0, mints);
    ExampleOthers(c3, u1, u2, u3, docs, file, tmp);
    ExampleFilters(Lru.Without(c3.entries, u2), u1, u2, u3, docs, file, tmp);
    ResolveHitTo(c3, u2, file, [(u3, tmp), (u1, docs), (u2, file)]);
    var c4 := Resolve(c3, MarshalBinary(u2)).0;
    var next := Entry(fs, ["tmp", "b.txt"]);
    ExampleMint(c4, u1, u2, u3, u4, docs, file, tmp, next);
    var c5 := Lru.Add(c4, u4, next);
    ExampleStale(c5, u1, u2, u3, u4, docs, file, next);
    assert c5.entries[0] == (u1, docs);
    Lru.PeekOfMember(c5, u1, docs);
    ExampleHit(c5, u1, docs);
  }

  /** In WarmingExample, `docs/a.txt` resolves, and `docs` and `tmp` are the
      other entries. */
  lemma ExampleOthers<F>(c3: HandleCache<F>, u1: Uuid, u2: Uuid, u3: Uuid, docs: Entry<F>, file: Entry<F>, tmp: Entry<F>)
    requires u1 != u2 && u1 != u3 && u2 != u3
    requires Lru.Valid(c3) && c3.entries == [(u1, docs), (u2, file), (u3, tmp)]
    ensures Lru.Peek(c3, u2) == Some(file)
    ensures Lru.Without(c3.entries, u2) == [(u1, docs), (u3, tmp)]
  {
    Lru.PeekOfMember(c3, u2, file);
    Lru.WithoutAt(c3.entries, 1);
    assert c3.entries[..1] + c3.entries[2..] == [(u1, docs), (u3, tmp)];
  }

  /** Of `docs` and `tmp`, only `docs` is an ancestor of `docs/a.txt`. */
  lemma ExampleFilters<F>(others: seq<(Uuid, Entry<F>)>, u1: Uuid, u2: Uuid, u3: Uuid, docs: Entry<F>, file: Entry<F>, tmp: Entry<F>)
    requires docs.p == ["docs"] && file.p == ["docs", "a.txt"] && tmp.p == ["tmp"]
    requires others == [(u1, docs), (u3, tmp)]
    ensures NonAncestors(others, file.p) == [(u3, tmp)]
    ensures Ancestors(others, file.p) == [(u1, docs)]
    ensures Warmed(others, file.p) + [(u2, file)] == [(u3, tmp), (u1, docs), (u2, file)]
  {
    assert file.p[..1] == ["docs"];
    assert PrefixOf(docs.p, file.p);
    assert !PrefixOf(tmp.p, file.p) by {
      assert "tmp"[0] != "docs"[0];
      assert ["tmp"][0] != ["docs"][0];
    }
    var first := others[..1];
    assert first == [(u1, docs)] && first[..0] == [];
    assert NonAncestors(first, file.p) == [];
    assert Ancestors(first, file.p) == [(u1, docs)];
  }

  /** The mint in WarmingExample: the table is full and `tmp` is the oldest. */
  lemma ExampleMint<F>(c4: HandleCache<F>, u1: Uuid, u2: Uuid, u3: Uuid, u4: Uuid,
                       docs: Entry<F>, file: Entry<F>, tmp: Entry<F>, next: Entry<F>)
    requires u1 != u4 && u2 != u4 && u3 != u4
    requires Lru.Valid(c4) && c4.size == 3 && c4.entries == [(u3, tmp), (u1, docs), (u2, file)]
    ensures Lru.Add(c4, u4, next).entries == [(u1, docs), (u2, file), (u4, next)]
  {
    assert Lru.Keys(c4) == [u3, u1, u2];
    assert !Lru.Contains(c4, u4);
    Lru.AddCases(c4, u4, next);
    assert c4.entries[1..] == [(u1, docs), (u2, file)];
  }

  /** After the mint in WarmingExample, `tmp` is stale. */
  lemma ExampleStale<F>(c5: HandleCache<F>, u1: Uuid, u2: Uuid, u3: Uuid, u4: Uuid,
                        docs: Entry<F>, file: Entry<F>, next: Entry<F>)
    requires u1 != u3 && u2 != u3 && u3 != u4
    requires Lru.Valid(c5) && c5.entries == [(u1, docs), (u2, file), (u4, next)]
    ensures Lru.Keys(c5) == [u1, u2, u4]
    ensures Resolve(c5, MarshalBinary(u3)).1 == Resolution(None, [], Some(NFSStatusStale))
  {
    assert Lru.Keys(c5) == [u1, u2, u4];
  }

  /** After the mint in WarmingExample, `docs` still resolves. */
  lemma ExampleHit<F>(c5: HandleCache<F>, u1: Uuid, docs: Entry<F>)
    requires Lru.Valid(c5) && Lru.Peek(c5, u1) == Some(docs)
    ensures Resolve(c5, MarshalBinary(u1)).1 == Resolution(Some(docs.f), docs.p, None)
  {
  }
}
