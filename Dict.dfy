/**
 A Python dict is an insertion-ordered mapping. Where the order matters (the
 serialised byte order of a record, the ranking's tie order) a dict is modelled
 as the sequence of its (key, value) items; `AsMap` gives the mapping it holds.
 */
module Dict {

  /** The keys of a sequence of items, in order. */
  function Keys<V>(es: seq<(string, V)>): (ks: seq<string>)
    ensures |ks| == |es|
    ensures forall i :: 0 <= i < |es| ==> ks[i] == es[i].0
  {
    seq(|es|, i requires 0 <= i < |es| => es[i].0)
  }

  /** No key occurs twice, as in the items of a dict. */
  predicate DistinctKeys<V>(es: seq<(string, V)>)
  {
    forall i, j :: 0 <= i < j < |es| ==> es[i].0 != es[j].0
  }

  /** No element occurs twice. */
  predicate Distinct(s: seq<string>)
  {
    forall i, j :: 0 <= i < j < |s| ==> s[i] != s[j]
  }

  /** The set of elements of a sequence. */
  function Elems(s: seq<string>): set<string>
  {
    set x | x in s
  }

  /**
   The mapping that `{k: v for k, v in es}` builds: every key of `es` is
   present, and a later item overrides an earlier one with the same key.
   */
  function AsMap<V>(es: seq<(string, V)>): (m: map<string, V>)
    ensures m.Keys == Elems(Keys(es))
  {
    if |es| == 0 then map[]
    else
      var init := es[..|es| - 1];
      assert Keys(es) == Keys(init) + [es[|es| - 1].0];
      AsMap(init)[es[|es| - 1].0 := es[|es| - 1].1]
  }

  /** With distinct keys, each item is exactly what the mapping holds for its key. */
  lemma {:induction false} AsMapAt<V>(es: seq<(string, V)>, i: nat)
    requires DistinctKeys(es)
    requires i < |es|
    ensures es[i].0 in AsMap(es) && AsMap(es)[es[i].0] == es[i].1
  {
    var n := |es| - 1;
    var init := es[..n];
    var last := es[n];
    assert AsMap(es) == AsMap(init)[last.0 := last.1];
    if i < n {
      assert DistinctKeys(init) by {
        forall a, b | 0 <= a < b < |init| ensures init[a].0 != init[b].0 {
          assert init[a] == es[a] && init[b] == es[b];
        }
      }
      AsMapAt(init, i);
      assert init[i] == es[i];
      assert es[i].0 != last.0;
    }
  }

  /** A key is present in the mapping exactly when some item carries it. */
  lemma AsMapHas<V>(es: seq<(string, V)>, k: string)
    ensures k in AsMap(es) <==> exists i :: 0 <= i < |es| && es[i].0 == k
  {
    if k in AsMap(es) {
      assert k in Keys(es);
      var i :| 0 <= i < |es| && Keys(es)[i] == k;
    }
    if exists i :: 0 <= i < |es| && es[i].0 == k {
      var i :| 0 <= i < |es| && es[i].0 == k;
      assert Keys(es)[i] == k;
    }
  }

  /** With distinct keys, an item is present exactly when the mapping holds its value for its key. */
  lemma AsMapMember<V>(es: seq<(string, V)>, k: string, v: V)
    requires DistinctKeys(es)
    ensures (k, v) in es <==> k in AsMap(es) && AsMap(es)[k] == v
  {
    if (k, v) in es {
      var i :| 0 <= i < |es| && es[i] == (k, v);
      AsMapAt(es, i);
    }
    if k in AsMap(es) {
      AsMapHas(es, k);
      var i :| 0 <= i < |es| && es[i].0 == k;
      AsMapAt(es, i);
      if AsMap(es)[k] == v {
        assert es[i] == (k, v);
      }
    }
  }
}
