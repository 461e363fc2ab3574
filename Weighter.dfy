/**
 The Weighter: weight vectors read off a built index. Document and stem
 weights are the raw term frequencies the index readers return; query
 weights give every stem of the vocabulary a zero weight and then lay the
 query's own term frequencies over them.
 */
module Weighter {
  import opened Wrappers
  import opened Dict
  import opened Codec
  import opened IndexSpec
  import opened IndexLemmas

  /** `getDocWeightsForDoc`: the document's stem -> tf dict, straight from `getTfsForDoc`. */
  function GetDocWeightsForDoc(t: Tables, doc: string): (r: Result<map<string, nat>, IndexError>)
    ensures r == GetTfsForDoc(t, doc)
  {
    GetTfsForDoc(t, doc)
  }

  /** `getDocWeightsForStem`: the stem's doc -> tf dict, straight from `getTfsForStem`. */
  function GetDocWeightsForStem(t: Tables, stem: string): (r: Result<map<string, nat>, IndexError>)
    ensures r == GetTfsForStem(t, stem)
  {
    GetTfsForStem(t, stem)
  }

  /** `dict.fromkeys(stems, 0)`. */
  function Zeros(stems: set<string>): (m: map<string, nat>)
    ensures m.Keys == stems
    ensures forall s :: s in m ==> m[s] == 0
  {
    map s | s in stems :: 0
  }

  /**
   `getWeightsForQuery`: `{**dict.fromkeys(stems, 0), **query_tf}`, where
   `query` is the items of the dict the text representer gives for the
   query text. The key set is the vocabulary together with the query's
   terms; a query term keeps its query count, whether or not the corpus has
   it, and every other stem weighs 0.
   */
  function GetWeightsForQuery(t: Tables, query: Entries): (r: map<string, nat>)
    ensures r.Keys == t.stems.Keys + Elems(Keys(query))
    ensures forall q :: q in AsMap(query) ==> q in r && r[q] == AsMap(query)[q]
    ensures forall s :: s in t.stems && s !in AsMap(query) ==> r[s] == 0
  {
    Zeros(t.stems.Keys) + AsMap(query)
  }

  // ---- the weights of a freshly built index ----

  /**
   After `indexation` on a fresh index, a document's weights are the dict the
   text representer gave for it (an empty dict wrote an empty record, which
   does not parse), and an id the corpus never had is an error.
   */
  lemma DocWeightsAfterBuild(corpus: seq<Doc>, doc: string)
    requires WellFormed(corpus)
    ensures doc !in Ids(corpus) ==> GetDocWeightsForDoc(Build(Empty(), corpus), doc) == Err(UnknownDocument(doc))
    ensures forall k :: 0 <= k < |corpus| && corpus[k].id == doc ==>
      GetDocWeightsForDoc(Build(Empty(), corpus), doc) ==
        if |corpus[k].tf| == 0 then Err(Malformed(NotAPair(0))) else Ok(AsMap(corpus[k].tf))
  {
    BuildKeys(corpus);
    if doc !in Ids(corpus) {
      assert doc !in Elems(Ids(corpus));
    }
    forall k | 0 <= k < |corpus| && corpus[k].id == doc
      ensures GetDocWeightsForDoc(Build(Empty(), corpus), doc) ==
        if |corpus[k].tf| == 0 then Err(Malformed(NotAPair(0))) else Ok(AsMap(corpus[k].tf))
    {
      DocRecordRoundTrip(Empty(), corpus, k);
    }
  }

  /**
   After `indexation` on a fresh index, a stem the corpus never had weighs
   nothing anywhere (the empty dict), and a stem it has gets the documents
   holding it with a positive count, with those counts.
   */
  lemma StemWeightsAfterBuild(corpus: seq<Doc>, stem: string)
    requires WellFormed(corpus)
    ensures stem !in TermsOf(corpus) ==> GetDocWeightsForStem(Build(Empty(), corpus), stem) == Ok(map[])
    ensures stem in TermsOf(corpus) && |Postings(corpus, stem)| > 0 ==>
      GetDocWeightsForStem(Build(Empty(), corpus), stem) == Ok(AsMap(Postings(corpus, stem)))
  {
    BuildKeys(corpus);
    var f := ForwardPass(Empty(), corpus);
    assert Build(Empty(), corpus) == InvertPass(f, corpus);
    if stem in TermsOf(corpus) {
      assert Valid(f) && stem in f.vocab;
      StemRecordRoundTrip(f, corpus, stem);
    }
  }

  /**
   After `indexation` on a fresh index, the query's weight vector has one
   entry per distinct term of the corpus plus one per out-of-vocabulary
   query term.
   */
  lemma QueryKeysAfterBuild(corpus: seq<Doc>, query: Entries)
    ensures GetWeightsForQuery(Build(Empty(), corpus), query).Keys == TermsOf(corpus) + Elems(Keys(query))
  {
    BuildKeys(corpus);
  }

  /**
   The query "dog cat fox" against the vocabulary {cat, dog, bird}: the
   out-of-vocabulary "fox" is kept, "bird" weighs 0.
   */
  lemma QueryExample(t: Tables)
    requires t.stems.Keys == {"cat", "dog", "bird"}
    ensures var r := GetWeightsForQuery(t, [("dog", 1), ("cat", 1), ("fox", 1)]);
      && r.Keys == {"cat", "dog", "bird", "fox"}
      && r["cat"] == 1 && r["dog"] == 1 && r["bird"] == 0 && r["fox"] == 1
  {
    QueryExampleItems();
    assert "bird" !in AsMap<nat>([("dog", 1), ("cat", 1), ("fox", 1)]);
    assert Elems(["dog", "cat", "fox"]) == {"dog", "cat", "fox"};
    assert Keys([("dog", 1), ("cat", 1), ("fox", 1)]) == ["dog", "cat", "fox"];
  }

  /** The dict the query items build. */
  lemma QueryExampleItems()
    ensures AsMap<nat>([("dog", 1), ("cat", 1), ("fox", 1)]) == map["dog" := 1, "cat" := 1, "fox" := 1]
  {
    var q: Entries := [("dog", 1), ("cat", 1), ("fox", 1)];
    assert q[..1] == [("dog", 1)] && q[..1][..0] == [];
    assert AsMap(q[..1]) == map["dog" := 1];
    assert q[..2][..1] == q[..1];
    assert AsMap(q[..2]) == map["dog" := 1, "cat" := 1];
    assert q[..2] == q[..|q| - 1];
  }


}
