/** Paths as the handler stores them: the list of segment names from the
    filesystem root down to the file. */
module Paths {

  /** `prefix` names the same node as `path` or one of its ancestors: it is no
      longer than `path` and agrees with it segment by segment. */
  predicate PrefixOf(prefix: seq<string>, path: seq<string>) {
    |prefix| <= |path| && prefix == path[..|prefix|]
  }

  /** `hasPrefix(path, prefix)`: a scan of `prefix` that stops at the first
      segment where the two differ. */
  method HasPrefix(path: seq<string>, prefix: seq<string>) returns (r: bool)
    ensures r == PrefixOf(prefix, path)
  {
    if |prefix| > |path| {
      return false;
    }
    for i := 0 to |prefix|
      invariant prefix[..i] == path[..i]
    {
      if path[i] != prefix[i] {
        return false;
      }
    }
    return true;
  }

  /** Every path is its own ancestor, the root (the empty path) is an
      ancestor of every path, and an ancestor of an ancestor is an
      ancestor. */
  lemma PrefixOfOrder(a: seq<string>, b: seq<string>, c: seq<string>)
    ensures PrefixOf(a, a) && PrefixOf([], a)
    ensures PrefixOf(a, b) && PrefixOf(b, c) ==> PrefixOf(a, c)
  {
    if PrefixOf(a, b) && PrefixOf(b, c) {
      assert c[..|b|][..|a|] == c[..|a|];
    }
  }
}
