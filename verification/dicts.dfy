/** Python dictionaries built by comprehension over a sequence of pairs, as `sync_deck`
    and `sync_model` do (markdown_anki_decks/sync.py). */
module Dicts {

  /** The keys of a pair sequence. */
  ghost function KeysOf<K, V>(pairs: seq<(K, V)>): set<K>
  {
    set i | 0 <= i < |pairs| :: pairs[i].0
  }

  /** Pair `i` carries key `k` and no later pair does. */
  ghost predicate IsLastFor<K, V>(pairs: seq<(K, V)>, k: K, i: int)
  {
    && 0 <= i < |pairs|
    && pairs[i].0 == k
    && forall j :: i < j < |pairs| ==> pairs[j].0 != k
  }

  /** `{k: v for (k, v) in pairs}`: every key is present, holding the value of its last pair. */
  function FromPairs<K(==), V>(pairs: seq<(K, V)>): (m: map<K, V>)
    ensures m.Keys == KeysOf(pairs)
    ensures forall k :: k in m ==> exists i :: IsLastFor(pairs, k, i) && m[k] == pairs[i].1
  {
    if pairs == [] then map[]
    else
      var init := pairs[..|pairs| - 1];
      var last := pairs[|pairs| - 1];
      var m := FromPairs(init);
      PairsSnoc(pairs);
      assert forall k :: k in m && k != last.0 ==> exists i :: IsLastFor(pairs, k, i) && m[k] == pairs[i].1 by {
        forall k | k in m && k != last.0
          ensures exists i :: IsLastFor(pairs, k, i) && m[k] == pairs[i].1
        {
          var i :| IsLastFor(init, k, i) && m[k] == init[i].1;
          LastForSnoc(pairs, k, i);
        }
      }
      m[last.0 := last.1]
  }

  lemma PairsSnoc<K, V>(pairs: seq<(K, V)>)
    requires pairs != []
    ensures KeysOf(pairs) == KeysOf(pairs[..|pairs| - 1]) + {pairs[|pairs| - 1].0}
    ensures IsLastFor(pairs, pairs[|pairs| - 1].0, |pairs| - 1)
  {
    var init := pairs[..|pairs| - 1];
    assert forall i :: 0 <= i < |init| ==> init[i] == pairs[i];
  }

  lemma LastForSnoc<K, V>(pairs: seq<(K, V)>, k: K, i: int)
    requires pairs != []
    requires IsLastFor(pairs[..|pairs| - 1], k, i) && k != pairs[|pairs| - 1].0
    ensures IsLastFor(pairs, k, i)
  {
  }

  /** The last pair carrying a key is the one found under it. */
  lemma FromPairsLast<K, V>(pairs: seq<(K, V)>, i: int)
    requires 0 <= i < |pairs| && IsLastFor(pairs, pairs[i].0, i)
    ensures pairs[i].0 in FromPairs(pairs) && FromPairs(pairs)[pairs[i].0] == pairs[i].1
  {
    var k := pairs[i].0;
    assert k in KeysOf(pairs);
    var j :| IsLastFor(pairs, k, j) && FromPairs(pairs)[k] == pairs[j].1;
    assert IsLastFor(pairs, k, j);
    assert 0 <= j < |pairs|;
  }

  /** No key occurs twice. */
  ghost predicate DistinctKeys<K, V>(pairs: seq<(K, V)>)
  {
    forall i, j :: 0 <= i < j < |pairs| ==> pairs[i].0 != pairs[j].0
  }

  /** With distinct keys nothing is overwritten: each pair is found under its own key. */
  lemma FromPairsDistinct<K, V>(pairs: seq<(K, V)>, i: int)
    requires DistinctKeys(pairs)
    requires 0 <= i < |pairs|
    ensures pairs[i].0 in FromPairs(pairs) && FromPairs(pairs)[pairs[i].0] == pairs[i].1
  {
    var m := FromPairs(pairs);
    var k := pairs[i].0;
    assert k in KeysOf(pairs);
    var j :| IsLastFor(pairs, k, j) && m[k] == pairs[j].1;
    assert i == j;
  }
}
