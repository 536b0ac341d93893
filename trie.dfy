/**
 The prefix index the suffix list is stored in. The trie is modelled as the
 finite set of its keys; its one query, `prefixes(q)`, returns every stored
 key that is a prefix of `q`, shortest first.
 */
module Trie {
  import opened PyStr

  /** `Trie(keys)`: the set of keys built from a list, duplicates collapsed. */
  function KeySet(domains: seq<string>): (r: set<string>)
    ensures forall k :: k in r <==> k in domains
  {
    set k | k in domains
  }

  /** `Trie.prefixes(q)`: the stored keys that are prefixes of `q`, in ascending length. */
  function Prefixes(keys: set<string>, q: string): (r: seq<string>)
    ensures forall k :: k in r <==> k in keys && IsPrefix(k, q)
    ensures forall i, j :: 0 <= i < j < |r| ==> |r[i]| < |r[j]|
  {
    PrefixesUpTo(keys, q, |q|)
  }

  /** The stored prefixes of `q` of length at most `n`, in ascending length. */
  function PrefixesUpTo(keys: set<string>, q: string, n: nat): (r: seq<string>)
    requires n <= |q|
    ensures forall k :: k in r <==> k in keys && IsPrefix(k, q) && |k| <= n
    ensures forall i, j :: 0 <= i < j < |r| ==> |r[i]| < |r[j]|
    ensures forall i :: 0 <= i < |r| ==> |r[i]| <= n
  {
    var shorter := if n == 0 then [] else PrefixesUpTo(keys, q, n - 1);
    if q[..n] in keys then shorter + [q[..n]] else shorter
  }

  /** `k` is the longest stored key that is a prefix of `q`. */
  ghost predicate IsLongestMatch(keys: set<string>, q: string, k: string) {
    && k in keys
    && IsPrefix(k, q)
    && forall k' :: k' in keys && IsPrefix(k', q) ==> |k'| <= |k|
  }

  /** The last element of `prefixes(q)` (Python's `search[-1]`) is the longest match. */
  lemma LastPrefixIsLongest(keys: set<string>, q: string)
    requires |Prefixes(keys, q)| > 0
    ensures IsLongestMatch(keys, q, Prefixes(keys, q)[|Prefixes(keys, q)| - 1])
  {
    var search := Prefixes(keys, q);
    var last := |search| - 1;
    forall k' | k' in keys && IsPrefix(k', q)
      ensures |k'| <= |search[last]|
    {
      var i :| 0 <= i < |search| && search[i] == k';
      if i < last {
        assert |search[i]| < |search[last]|;
      }
    }
  }

  /** Two prefixes of one string of the same length are equal, so the longest match is unique. */
  lemma LongestMatchUnique(keys: set<string>, q: string, a: string, b: string)
    requires IsLongestMatch(keys, q, a) && IsLongestMatch(keys, q, b)
    ensures a == b
  {
    assert |a| == |b|;
    assert a == q[..|a|] && b == q[..|b|];
  }
}
