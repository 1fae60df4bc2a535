/** The bounded least-recently-used cache that both of the handler's tables
    are built on (hashicorp/golang-lru, version 1: `New`, `Add`, `Get`,
    `Peek`, `Keys`). The library keeps a hash map plus a doubly linked list;
    this model keeps only what callers can observe: the entries in recency
    order, oldest first, each key at most once, and the capacity given to
    `New`. A cache is a value here; the handler's fields hold one and are
    reassigned. */
module Lru {
  import opened Wrappers

  datatype Cache<K, V> = Cache(entries: seq<(K, V)>, size: int)

  /** The keys of a list of entries, in the same order. */
  function KeysOf<K, V>(es: seq<(K, V)>): (ks: seq<K>)
    ensures |ks| == |es|
    ensures forall i {:trigger ks[i]} :: 0 <= i < |es| ==> ks[i] == es[i].0
  {
    seq(|es|, i requires 0 <= i < |es| => es[i].0)
  }

  /** No key occurs twice. Stated on the list of keys, so that it is only
      applied to positions where that list is looked at
      (DistinctKeysElim). */
  ghost predicate DistinctKeys<K, V>(es: seq<(K, V)>) {
    forall i, j :: 0 <= i < j < |KeysOf(es)| ==> KeysOf(es)[i] != KeysOf(es)[j]
  }

  /** DistinctKeys from pairwise distinct keys. */
  lemma DistinctKeysIntro<K, V>(es: seq<(K, V)>)
    requires forall i, j :: 0 <= i < j < |es| ==> es[i].0 != es[j].0
    ensures DistinctKeys(es)
  {
    forall i, j | 0 <= i < j < |KeysOf(es)| ensures KeysOf(es)[i] != KeysOf(es)[j] {
      assert es[i].0 != es[j].0;
    }
  }

  /** Pairwise distinct keys from DistinctKeys. */
  lemma DistinctKeysElim<K, V>(es: seq<(K, V)>)
    requires DistinctKeys(es)
    ensures forall i, j :: 0 <= i < j < |es| ==> es[i].0 != es[j].0
  {
    forall i, j | 0 <= i < j < |es| ensures es[i].0 != es[j].0 {
      assert KeysOf(es)[i] == es[i].0 && KeysOf(es)[j] == es[j].0;
    }
  }

  /** What the library maintains: a positive capacity that is never exceeded
      and at most one entry per key. */
  ghost predicate Valid<K, V>(c: Cache<K, V>) {
    0 < c.size && |c.entries| <= c.size && DistinctKeys(c.entries)
  }

  /** `Keys`: the keys from oldest to newest. */
  function Keys<K, V>(c: Cache<K, V>): seq<K> {
    KeysOf(c.entries)
  }

  predicate Contains<K(==), V>(c: Cache<K, V>, k: K) {
    k in Keys(c)
  }

  /** The last `n` elements of `s` (all of them when there are no more). */
  function Newest<T>(s: seq<T>, n: nat): (r: seq<T>)
    ensures |r| == if |s| <= n then |s| else n
    ensures forall j :: 0 <= j < |r| ==> r[j] == s[|s| - |r| + j]
  {
    if |s| <= n then s else s[|s| - n..]
  }

  /** The entries without the one for `k`, the others in their order. */
  function Without<K(==), V>(es: seq<(K, V)>, k: K): (r: seq<(K, V)>)
    ensures |r| <= |es|
    ensures forall i :: 0 <= i < |r| ==> r[i].0 != k && r[i] in es
  {
    if es == [] then []
    else (if es[0].0 == k then [] else [es[0]]) + Without(es[1..], k)
  }

  /** Position of the first entry for `k`, or -1. */
  function IndexOf<K(==), V>(es: seq<(K, V)>, k: K): (r: int)
    ensures -1 <= r < |es|
    ensures 0 <= r ==> es[r].0 == k && forall i :: 0 <= i < r ==> es[i].0 != k
    ensures r < 0 <==> forall i :: 0 <= i < |es| ==> es[i].0 != k
  {
    if es == [] then -1
    else if es[0].0 == k then 0
    else
      var r := IndexOf(es[1..], k);
      if r < 0 then -1 else r + 1
  }

  /** `New(size)`; the library refuses a size that is not positive, which the
      handler never passes. */
  function New<K, V>(size: int): (c: Cache<K, V>)
    requires 0 < size
    ensures Valid(c) && c.size == size && Keys(c) == []
  {
    Cache([], size)
  }

  /** `Peek`: the value for `k`, without touching its recency. */
  function Peek<K(==), V>(c: Cache<K, V>, k: K): (r: Option<V>)
    ensures r.None? <==> !Contains(c, k)
    ensures r.Some? ==> (k, r.value) in c.entries
  {
    var i := IndexOf(c.entries, k);
    if i < 0 then None
    else
      assert Keys(c)[i] == k;
      Some(c.entries[i].1)
  }

  /** `Get`: the value for `k`; on a hit the entry becomes the newest. */
  function Get<K(==), V>(c: Cache<K, V>, k: K): (r: (Cache<K, V>, Option<V>))
    requires Valid(c)
    ensures r.1 == Peek(c, k)
    ensures Valid(r.0) && r.0.size == c.size
    ensures r.1.None? ==> r.0 == c
    ensures r.1.Some? ==> r.0.entries == Without(c.entries, k) + [(k, r.1.value)]
  {
    var i := IndexOf(c.entries, k);
    if i < 0 then (c, None)
    else
      var es := c.entries;
      WithoutAt(es, i);
      var moved := es[..i] + es[i + 1..] + [es[i]];
      DistinctWithout(es, k);
      DistinctAppend(Without(es, k), es[i]);
      (c.(entries := moved), Some(es[i].1))
  }

  /** `Add`: store `v` under `k` as the newest entry. An existing entry for `k`
      is replaced in place of being duplicated; otherwise, when the cache then
      holds more than `size` entries, the oldest one is evicted. */
  function Add<K(==), V>(c: Cache<K, V>, k: K, v: V): (r: Cache<K, V>)
    requires Valid(c)
    ensures Valid(r) && r.size == c.size
    ensures r.entries == Newest(Without(c.entries, k) + [(k, v)], c.size)
    ensures Peek(r, k) == Some(v)
  {
    var es := c.entries;
    var i := IndexOf(es, k);
    if 0 <= i then
      AddHit(c, k, v, i);
      c.(entries := es[..i] + es[i + 1..] + [(k, v)])
    else
      AddMiss(c, k, v);
      var grown := es + [(k, v)];
      if |grown| > c.size then c.(entries := grown[1..]) else c.(entries := grown)
  }

  /** `Add` of a key that is present: its entry moves to the newest end. */
  lemma AddHit<K, V>(c: Cache<K, V>, k: K, v: V, i: nat)
    requires Valid(c) && i < |c.entries| && c.entries[i].0 == k
    ensures var es := c.entries;
      var r := c.(entries := es[..i] + es[i + 1..] + [(k, v)]);
      Valid(r) && r.entries == Newest(Without(es, k) + [(k, v)], c.size) && Peek(r, k) == Some(v)
  {
    var es := c.entries;
    WithoutAt(es, i);
    DistinctWithout(es, k);
    DistinctAppend(Without(es, k), (k, v));
    var r := c.(entries := es[..i] + es[i + 1..] + [(k, v)]);
    assert r.entries[|r.entries| - 1] == (k, v);
    PeekOfMember(r, k, v);
  }

  /** `Add` of a key that is absent: the entry is appended and, past the
      capacity, the oldest entry dropped. */
  lemma AddMiss<K, V>(c: Cache<K, V>, k: K, v: V)
    requires Valid(c) && IndexOf(c.entries, k) < 0
    ensures var grown := c.entries + [(k, v)];
      var r := if |grown| > c.size then c.(entries := grown[1..]) else c.(entries := grown);
      Valid(r) && r.entries == Newest(Without(c.entries, k) + [(k, v)], c.size) && Peek(r, k) == Some(v)
  {
    var es := c.entries;
    WithoutAbsent(es, k);
    var grown := es + [(k, v)];
    DistinctWithout(es, k);
    DistinctAppend(Without(es, k), (k, v));
    DistinctSuffix(grown, 1);
    var r := if |grown| > c.size then c.(entries := grown[1..]) else c.(entries := grown);
    assert r.entries[|r.entries| - 1] == (k, v);
    PeekOfMember(r, k, v);
  }

  /** Adding each pair in turn, as a run of `Add` calls does. */
  function AddAll<K(==), V>(c: Cache<K, V>, kvs: seq<(K, V)>): (r: Cache<K, V>)
    requires Valid(c)
    ensures Valid(r) && r.size == c.size
    decreases |kvs|
  {
    if kvs == [] then c else AddAll(Add(c, kvs[0].0, kvs[0].1), kvs[1..])
  }

  // ---------------------------------------------------------------------
  // Lemmas about entries with distinct keys

  /** Two entries with the same key are the same entry. */
  lemma SameKeySameEntry<K, V>(es: seq<(K, V)>, x: (K, V), y: (K, V))
    requires DistinctKeys(es) && x in es && y in es && x.0 == y.0
    ensures x == y
  {
    DistinctKeysElim(es);
    var i :| 0 <= i < |es| && es[i] == x;
    var j :| 0 <= j < |es| && es[j] == y;
    assert i == j;
  }

  /** Two different entries carry different keys. */
  lemma DifferentEntriesDifferentKeys<K, V>(es: seq<(K, V)>, x: (K, V), y: (K, V))
    requires DistinctKeys(es) && x in es && y in es && x != y
    ensures x.0 != y.0
  {
    DistinctKeysElim(es);
    var i :| 0 <= i < |es| && es[i] == x;
    var j :| 0 <= j < |es| && es[j] == y;
    assert i != j;
  }

  /** In a valid cache `Peek` returns exactly the value stored beside the key. */
  lemma PeekOfMember<K, V>(c: Cache<K, V>, k: K, v: V)
    requires DistinctKeys(c.entries) && (k, v) in c.entries
    ensures Peek(c, k) == Some(v)
  {
    var i :| 0 <= i < |c.entries| && c.entries[i] == (k, v);
    assert KeysOf(c.entries)[i] == k;
    SameKeySameEntry(c.entries, (k, v), (k, Peek(c, k).value));
  }

  /** `PeekOfMember` for the entry at position `i`. */
  lemma PeekAt<K, V>(c: Cache<K, V>, i: nat)
    requires DistinctKeys(c.entries) && i < |c.entries|
    ensures Peek(c, c.entries[i].0) == Some(c.entries[i].1)
  {
    PeekOfMember(c, c.entries[i].0, c.entries[i].1);
  }

  /** Two valid caches holding the same entries, in whatever order, answer
      every `Peek` alike. */
  lemma SamePeek<K, V>(a: Cache<K, V>, b: Cache<K, V>)
    requires DistinctKeys(a.entries) && DistinctKeys(b.entries)
    requires multiset(a.entries) == multiset(b.entries)
    ensures forall k :: Peek(a, k) == Peek(b, k)
  {
    forall k ensures Peek(a, k) == Peek(b, k) {
      PeekTransfer(a, b, k);
      PeekTransfer(b, a, k);
    }
  }

  /** A value `Peek` finds in `a` is found in any valid cache with the same
      entries. */
  lemma PeekTransfer<K, V>(a: Cache<K, V>, b: Cache<K, V>, k: K)
    requires DistinctKeys(b.entries) && multiset(a.entries) == multiset(b.entries)
    ensures Peek(a, k).Some? ==> Peek(b, k) == Peek(a, k)
  {
    if Peek(a, k).Some? {
      var v := Peek(a, k).value;
      assert (k, v) in multiset(a.entries);
      PeekOfMember(b, k, v);
    }
  }

  /** With distinct keys, removing the key at `i` cuts out position `i`. */
  lemma {:induction false} WithoutAt<K, V>(es: seq<(K, V)>, i: nat)
    requires DistinctKeys(es) && i < |es|
    ensures Without(es, es[i].0) == es[..i] + es[i + 1..]
  {
    var k := es[i].0;
    DistinctKeysElim(es);
    DistinctSuffix(es, 1);
    if i == 0 {
      WithoutAbsent(es[1..], k);
    } else {
      WithoutAt(es[1..], i - 1);
      assert es[1..][i - 1].0 == k;
      assert es[..i] == [es[0]] + es[1..][..i - 1];
      assert es[i + 1..] == es[1..][i..];
    }
  }

  /** Removing a key that is not there changes nothing. */
  lemma {:induction false} WithoutAbsent<K, V>(es: seq<(K, V)>, k: K)
    requires forall i :: 0 <= i < |es| ==> es[i].0 != k
    ensures Without(es, k) == es
  {
    if es != [] {
      WithoutAbsent(es[1..], k);
    }
  }

  /** Removing a key keeps the others distinct. */
  lemma {:induction false} DistinctWithout<K, V>(es: seq<(K, V)>, k: K)
    requires DistinctKeys(es)
    ensures DistinctKeys(Without(es, k))
  {
    if es != [] {
      DistinctKeysElim(es);
      DistinctSuffix(es, 1);
      DistinctWithout(es[1..], k);
      var head := if es[0].0 == k then [] else [es[0]];
      var rest := Without(es[1..], k);
      forall i, j | 0 <= i < |head| && 0 <= j < |rest| ensures head[i].0 != rest[j].0 {
        var m :| 0 <= m < |es[1..]| && es[1..][m] == rest[j];
        assert es[m + 1] == rest[j];
      }
      DistinctConcat(head, rest);
    }
  }

  /** Appending an entry whose key is new keeps the keys distinct. */
  lemma DistinctAppend<K, V>(es: seq<(K, V)>, x: (K, V))
    requires DistinctKeys(es) && forall i :: 0 <= i < |es| ==> es[i].0 != x.0
    ensures DistinctKeys(es + [x])
  {
    DistinctKeysElim(es);
    var s := es + [x];
    forall i, j | 0 <= i < j < |s| ensures s[i].0 != s[j].0 {
      assert s[i] == es[i];
    }
    DistinctKeysIntro(s);
  }

  /** Two lists with distinct keys and no key in common concatenate to one. */
  lemma DistinctConcat<K, V>(a: seq<(K, V)>, b: seq<(K, V)>)
    requires DistinctKeys(a) && DistinctKeys(b)
    requires forall i, j :: 0 <= i < |a| && 0 <= j < |b| ==> a[i].0 != b[j].0
    ensures DistinctKeys(a + b)
  {
    DistinctKeysElim(a);
    DistinctKeysElim(b);
    forall i, j | 0 <= i < j < |a + b| ensures (a + b)[i].0 != (a + b)[j].0 {
      if i < |a| && |a| <= j {
        assert (a + b)[j] == b[j - |a|];
      } else if |a| <= i {
        assert (a + b)[i] == b[i - |a|] && (a + b)[j] == b[j - |a|];
      }
    }
    DistinctKeysIntro(a + b);
  }

  /** A suffix of a list with distinct keys has distinct keys. */
  lemma DistinctSuffix<K, V>(es: seq<(K, V)>, m: nat)
    requires DistinctKeys(es) && m <= |es|
    ensures DistinctKeys(es[m..])
  {
    DistinctKeysElim(es);
    forall i, j | 0 <= i < j < |es[m..]| ensures es[m..][i].0 != es[m..][j].0 {
      assert es[m..][i] == es[m + i] && es[m..][j] == es[m + j];
    }
    DistinctKeysIntro(es[m..]);
  }

  /** A prefix of a list with distinct keys has distinct keys. */
  lemma DistinctPrefix<K, V>(es: seq<(K, V)>, m: nat)
    requires DistinctKeys(es) && m <= |es|
    ensures DistinctKeys(es[..m])
  {
    DistinctKeysElim(es);
    forall i, j | 0 <= i < j < m ensures es[..m][i].0 != es[..m][j].0 {
      assert es[..m][i] == es[i] && es[..m][j] == es[j];
    }
    DistinctKeysIntro(es[..m]);
  }

  /** `Without` keeps every entry under another key. */
  lemma {:induction false} WithoutKeeps<K, V>(es: seq<(K, V)>, k: K)
    ensures forall i :: 0 <= i < |es| && es[i].0 != k ==> es[i] in Without(es, k)
  {
    if es != [] {
      WithoutKeeps(es[1..], k);
      forall i | 0 <= i < |es| && es[i].0 != k ensures es[i] in Without(es, k) {
        if 0 < i {
          assert es[i] == es[1..][i - 1];
        }
      }
    }
  }

  /** `Get` only reorders: every key still maps to the value it had. */
  lemma GetKeepsValues<K, V>(c: Cache<K, V>, k: K)
    requires Valid(c)
    ensures forall k' :: Peek(Get(c, k).0, k') == Peek(c, k')
  {
    GetPermutes(c, k);
    SamePeek(Get(c, k).0, c);
  }

  /** `Get` only reorders: it keeps the same entries, each once. */
  lemma GetPermutes<K, V>(c: Cache<K, V>, k: K)
    requires Valid(c)
    ensures multiset(Get(c, k).0.entries) == multiset(c.entries)
  {
    var i := IndexOf(c.entries, k);
    if 0 <= i {
      var es := c.entries;
      WithoutAt(es, i);
      assert es == es[..i] + [es[i]] + es[i + 1..];
    }
  }

  /** The entries `Add` leaves beside the new one carry their old values. */
  lemma AddKeepsValues<K, V>(c: Cache<K, V>, k: K, v: V)
    requires Valid(c)
    ensures forall k' :: k' != k && Contains(Add(c, k, v), k') ==> Peek(Add(c, k, v), k') == Peek(c, k')
  {
    var r := Add(c, k, v);
    var s := Without(c.entries, k) + [(k, v)];
    assert s[|s| - 1] == (k, v);
    forall k' | k' != k && Contains(r, k') ensures Peek(r, k') == Peek(c, k') {
      var w := Peek(r, k').value;
      var j :| 0 <= j < |r.entries| && r.entries[j] == (k', w);
      var m := |s| - |r.entries| + j;
      assert r.entries[j] == s[m];
      assert m < |s| - 1;
      assert s[m] == Without(c.entries, k)[m];
      PeekOfMember(c, k', w);
    }
  }

  /** The three cases of `Add`: replace an existing entry, append when there
      is room, or append and evict the oldest. */
  lemma AddCases<K, V>(c: Cache<K, V>, k: K, v: V)
    requires Valid(c)
    ensures Contains(c, k) ==> Add(c, k, v).entries == Without(c.entries, k) + [(k, v)]
    ensures !Contains(c, k) && |c.entries| < c.size ==> Add(c, k, v).entries == c.entries + [(k, v)]
    ensures !Contains(c, k) && |c.entries| == c.size ==> Add(c, k, v).entries == c.entries[1..] + [(k, v)]
  {
    if Contains(c, k) {
      var i := IndexOf(c.entries, k);
      WithoutAt(c.entries, i);
    } else {
      forall i | 0 <= i < |c.entries| ensures c.entries[i].0 != k {
        assert Keys(c)[i] == c.entries[i].0;
      }
      WithoutAbsent(c.entries, k);
    }
  }

  // ---------------------------------------------------------------------
  // Lemmas about capacity and eviction

  /** Dropping elements from the front of a list longer than `n` does not
      change its newest `n`. */
  lemma NewestDrop<T>(s: seq<T>, m: nat, n: nat)
    requires m == 0 || m + n <= |s|
    ensures m <= |s| && Newest(s[m..], n) == Newest(s, n)
  {
    if m == 0 {
      assert s[m..] == s;
    } else {
      assert s[m..][|s| - m - n..] == s[|s| - n..];
    }
  }

  /** Inserting keys that are all new, into a cache that may already be full,
      leaves exactly the newest `size` entries of the old ones followed by the
      new ones: the oldest are evicted first. */
  lemma {:induction false} AddAllFresh<K, V>(c: Cache<K, V>, kvs: seq<(K, V)>)
    requires Valid(c) && DistinctKeys(c.entries + kvs)
    ensures AddAll(c, kvs).entries == Newest(c.entries + kvs, c.size)
    decreases |kvs|
  {
    var all := c.entries + kvs;
    if kvs == [] {
      assert all == c.entries;
    } else {
      var m := AddFirstFresh(c, kvs);
      DistinctSuffix(all, m);
      AddAllFresh(Add(c, kvs[0].0, kvs[0].1), kvs[1..]);
      NewestDrop(all, m, c.size);
    }
  }

  /** One step of `AddAllFresh`: adding the first new pair leaves the list of
      all entries less its first `m`. */
  lemma AddFirstFresh<K, V>(c: Cache<K, V>, kvs: seq<(K, V)>) returns (m: nat)
    requires Valid(c) && DistinctKeys(c.entries + kvs) && kvs != []
    ensures m <= 1 && (m == 0 || c.size + m <= |c.entries + kvs|)
    ensures Add(c, kvs[0].0, kvs[0].1).entries + kvs[1..] == (c.entries + kvs)[m..]
  {
    var all := c.entries + kvs;
    DistinctKeysElim(all);
    forall i | 0 <= i < |c.entries| ensures Keys(c)[i] != kvs[0].0 {
      assert all[i] == c.entries[i] && all[|c.entries|] == kvs[0];
    }
    AddCases(c, kvs[0].0, kvs[0].1);
    m := if |c.entries| < c.size then 0 else 1;
    ShiftAppend(c.entries, kvs, Add(c, kvs[0].0, kvs[0].1).entries, m);
  }

  /** Sequence bookkeeping for `AddFirstFresh`. */
  lemma ShiftAppend<T>(es: seq<T>, kvs: seq<T>, e: seq<T>, m: nat)
    requires kvs != [] && m <= 1
    requires m == 0 ==> e == es + [kvs[0]]
    requires m == 1 ==> |es| > 0 && e == es[1..] + [kvs[0]]
    ensures e + kvs[1..] == (es + kvs)[m..]
  {
    assert kvs == [kvs[0]] + kvs[1..];
  }

  /** When the cache is full, adding a new key evicts exactly the oldest
      entry; every other entry survives. */
  lemma EvictsOldest<K, V>(c: Cache<K, V>, k: K, v: V)
    requires Valid(c) && !Contains(c, k) && |c.entries| == c.size
    ensures Keys(Add(c, k, v)) == Keys(c)[1..] + [k]
    ensures !Contains(Add(c, k, v), c.entries[0].0)
  {
    AddCases(c, k, v);
    KeysOfAppend(c.entries[1..], [(k, v)]);
    KeysOfSuffix(c.entries, 1);
    assert KeysOf([(k, v)]) == [k];
    FirstKeyFresh(c.entries);
    assert Keys(c)[0] == c.entries[0].0;
  }

  /** Filling an empty cache of capacity `size` with `size + 1` distinct keys
      evicts the first of them and keeps the rest, in order. */
  lemma FillEvicts<K, V>(size: int, kvs: seq<(K, V)>)
    requires 0 < size && |kvs| == size + 1 && DistinctKeys(kvs)
    ensures AddAll(New(size), kvs).entries == kvs[1..]
    ensures !Contains(AddAll(New(size), kvs), kvs[0].0)
  {
    var c0: Cache<K, V> := New(size);
    assert c0.entries + kvs == kvs;
    AddAllFresh(c0, kvs);
    FirstKeyFresh(kvs);
  }

  /** The keys of two lists joined are their keys joined. */
  lemma KeysOfAppend<K, V>(a: seq<(K, V)>, b: seq<(K, V)>)
    ensures KeysOf(a + b) == KeysOf(a) + KeysOf(b)
  {
    assert forall i :: 0 <= i < |a + b| ==> KeysOf(a + b)[i] == (KeysOf(a) + KeysOf(b))[i];
  }

  /** The keys of a suffix are the suffix of the keys. */
  lemma KeysOfSuffix<K, V>(es: seq<(K, V)>, m: nat)
    requires m <= |es|
    ensures KeysOf(es[m..]) == KeysOf(es)[m..]
  {
    assert forall i :: 0 <= i < |es| - m ==> KeysOf(es[m..])[i] == KeysOf(es)[m..][i];
  }

  /** With distinct keys, the first key does not occur again. */
  lemma FirstKeyFresh<K, V>(es: seq<(K, V)>)
    requires DistinctKeys(es) && es != []
    ensures es[0].0 !in KeysOf(es[1..])
  {
    KeysOfSuffix(es, 1);
    forall j | 0 <= j < |es| - 1 ensures KeysOf(es[1..])[j] != es[0].0 {
      assert KeysOf(es)[0] != KeysOf(es)[j + 1];
    }
  }

  /** A key stored in some entry is one of the cache's keys. */
  lemma MemberContains<K, V>(c: Cache<K, V>, x: (K, V))
    requires x in c.entries
    ensures Contains(c, x.0)
  {
    var j :| 0 <= j < |c.entries| && c.entries[j] == x;
    assert Keys(c)[j] == x.0;
  }

  /** When there is room, or the key is already present, `Add` evicts
      nothing. */
  lemma AddKeepsAll<K, V>(c: Cache<K, V>, k: K, v: V, k': K)
    requires Valid(c) && (Contains(c, k) || |c.entries| < c.size)
    requires Contains(c, k')
    ensures Contains(Add(c, k, v), k')
  {
    AddCases(c, k, v);
    var r := Add(c, k, v);
    if k' == k {
      MemberContains(r, (k, v));
    } else {
      var i :| 0 <= i < |c.entries| && Keys(c)[i] == k';
      var x := c.entries[i];
      if Contains(c, k) {
        WithoutKeeps(c.entries, k);
        assert x in Without(c.entries, k);
      }
      assert x in r.entries;
      MemberContains(r, x);
    }
  }
}
