/**
 Properties of a built index: contiguous offsets, records that read back as
 the dicts written, the key sets of the tables, and the agreement of the
 inverted index with the forward one.
 */
module IndexLemmas {
  import opened Wrappers
  import opened Dict
  import opened Codec
  import opened FlatFile
  import opened IndexSpec

  /**
   A corpus the index can carry faithfully: document ids are unique and, like
   the terms, hold no separator; each tf dict has unique keys.
   */
  predicate WellFormed(corpus: seq<Doc>)
  {
    && Distinct(Ids(corpus))
    && (forall k :: 0 <= k < |corpus| ==> KeyOk(corpus[k].id))
    && (forall k :: 0 <= k < |corpus| ==> DistinctKeys(corpus[k].tf) && EntriesOk(corpus[k].tf))
  }

  /**
   Forward offsets are contiguous: the first record starts at 0, each
   document's extent has its record's length, the next starts where it ends,
   and the last one ends at the end of the file.
   */
  lemma DocOffsetsContiguous(t: Tables, corpus: seq<Doc>)
    requires Distinct(Ids(corpus))
    ensures forall k :: 0 <= k < |corpus| ==>
      var r := ForwardPass(t, corpus);
      corpus[k].id in r.docs && r.docs[corpus[k].id].length == |Encode(corpus[k].tf)|
    ensures |corpus| > 0 ==> ForwardPass(t, corpus).docs[corpus[0].id].start == 0
    ensures forall k :: 0 <= k < |corpus| - 1 ==>
      var docs := ForwardPass(t, corpus).docs;
      docs[corpus[k + 1].id].start == docs[corpus[k].id].start + docs[corpus[k].id].length
    ensures |corpus| > 0 ==>
      var r := ForwardPass(t, corpus);
      var last := r.docs[corpus[|corpus| - 1].id];
      |r.forward| == last.start + last.length
  {
    var rs := ForwardRecords(corpus);
    LayoutContiguous(rs, "");
    DocExtentAt(t, corpus);
    assert ForwardPass(t, corpus).forward == Concat(rs, "");
  }

  /** With distinct ids, the forward pass notes document k's extent as record k's place in the layout. */
  lemma DocExtentAt(t: Tables, corpus: seq<Doc>)
    requires Distinct(Ids(corpus))
    ensures forall k :: 0 <= k < |corpus| ==>
      corpus[k].id in ForwardPass(t, corpus).docs &&
      ForwardPass(t, corpus).docs[corpus[k].id] == Layout(ForwardRecords(corpus), "")[k]
  {
    var L := Layout(ForwardRecords(corpus), "");
    var r := ForwardPass(t, corpus);
    assert r.docs == t.docs + DocTable(corpus);
    forall k | 0 <= k < |corpus|
      ensures corpus[k].id in r.docs && r.docs[corpus[k].id] == L[k]
    {
      TableAt(Ids(corpus), L, k);
    }
  }

  /**
   Reading a document back: its extent covers exactly the record written for
   it, so `getTfsForDoc` returns the dict the text representer produced (an
   empty dict wrote an empty record, which `readDict` cannot parse).
   */
  lemma DocRecordRoundTrip(t: Tables, corpus: seq<Doc>, k: nat)
    requires Distinct(Ids(corpus))
    requires k < |corpus|
    requires EntriesOk(corpus[k].tf)
    ensures var r := Build(t, corpus);
      && corpus[k].id in r.docs
      && Read(r.forward, r.docs[corpus[k].id]) == Encode(corpus[k].tf)
      && GetTfsForDoc(r, corpus[k].id) ==
           if |corpus[k].tf| == 0 then Err(Malformed(NotAPair(0))) else Ok(AsMap(corpus[k].tf))
  {
    var rs := ForwardRecords(corpus);
    TableAt(Ids(corpus), Layout(rs, ""), k);
    ReadLayout(rs, "", k);
    if |corpus[k].tf| > 0 {
      DecodeEncode(corpus[k].tf);
    }
  }

  /** One document contributes `(id, c)` to stem `s` exactly for its items `(s, c)` with c > 0. */
  lemma {:induction false} EntryPostingsHas(id: string, es: Entries, s: string, d: string, c: nat)
    ensures (d, c) in EntryPostings(id, es, s) <==> d == id && (s, c) in es && c > 0
  {
    if |es| > 0 {
      var n := |es| - 1;
      EntryPostingsHas(id, es[..n], s, d, c);
      assert es == es[..n] + [es[n]];
    }
  }

  /** With unique keys, a document contributes at most one posting, keyed by its id. */
  lemma {:induction false} EntryPostingsShape(id: string, es: Entries, s: string)
    requires DistinctKeys(es)
    ensures |EntryPostings(id, es, s)| <= 1
    ensures forall i :: 0 <= i < |EntryPostings(id, es, s)| ==> EntryPostings(id, es, s)[i].0 == id
    ensures |EntryPostings(id, es, s)| == 1 ==> (s, EntryPostings(id, es, s)[0].1) in es
  {
    if |es| > 0 {
      var n := |es| - 1;
      assert DistinctKeys(es[..n]);
      EntryPostingsShape(id, es[..n], s);
      if es[n].0 == s && es[n].1 > 0 {
        assert |EntryPostings(id, es[..n], s)| == 0;
      }
    }
  }

  /**
   Stem `s`'s accumulator holds `(d, c)` exactly when document `d`'s dict
   has `s` with count c > 0.
   */
  lemma {:induction false} PostingsHas(corpus: seq<Doc>, s: string, d: string, c: nat)
    ensures (d, c) in Postings(corpus, s) <==>
      exists k :: 0 <= k < |corpus| && corpus[k].id == d && (s, c) in corpus[k].tf && c > 0
  {
    if |corpus| > 0 {
      var n := |corpus| - 1;
      PostingsHas(corpus[..n], s, d, c);
      EntryPostingsHas(corpus[n].id, corpus[n].tf, s, d, c);
      if exists k :: 0 <= k < |corpus| && corpus[k].id == d && (s, c) in corpus[k].tf && c > 0 {
        var k :| 0 <= k < |corpus| && corpus[k].id == d && (s, c) in corpus[k].tf && c > 0;
        if k < n {
          assert corpus[..n][k] == corpus[k];
        }
      }
      if exists k :: 0 <= k < n && corpus[..n][k].id == d && (s, c) in corpus[..n][k].tf && c > 0 {
        var k :| 0 <= k < n && corpus[..n][k].id == d && (s, c) in corpus[..n][k].tf && c > 0;
        assert corpus[..n][k] == corpus[k];
      }
    }
  }

  /** With unique ids and unique keys per document, no document is listed twice for a stem. */
  lemma {:induction false} PostingsDistinct(corpus: seq<Doc>, s: string)
    requires Distinct(Ids(corpus))
    requires forall k :: 0 <= k < |corpus| ==> DistinctKeys(corpus[k].tf)
    ensures DistinctKeys(Postings(corpus, s))
  {
    if |corpus| > 0 {
      var n := |corpus| - 1;
      var init := corpus[..n];
      assert Ids(init) == Ids(corpus)[..n];
      PostingsDistinct(init, s);
      var p := Postings(init, s);
      var q := EntryPostings(corpus[n].id, corpus[n].tf, s);
      EntryPostingsShape(corpus[n].id, corpus[n].tf, s);
      var pq: Entries := p + q;
      assert Postings(corpus, s) == pq;
      forall i, j | 0 <= i < j < |pq| ensures pq[i].0 != pq[j].0 {
        if j >= |p| {
          assert i < |p|;
          var e := p[i];
          assert e in p;
          PostingsHas(init, s, e.0, e.1);
          var k :| 0 <= k < n && init[k].id == e.0 && (s, e.1) in init[k].tf && e.1 > 0;
          assert Ids(corpus)[k] == e.0 && Ids(corpus)[n] == corpus[n].id;
        }
      }
    }
  }

  /** Every posting key is a document id. */
  lemma PostingsKeysOk(corpus: seq<Doc>, s: string)
    requires forall k :: 0 <= k < |corpus| ==> KeyOk(corpus[k].id)
    ensures EntriesOk(Postings(corpus, s))
  {
    var p := Postings(corpus, s);
    forall i | 0 <= i < |p| ensures KeyOk(p[i].0) {
      assert p[i] in p;
      PostingsHas(corpus, s, p[i].0, p[i].1);
    }
  }

  /**
   Reading a stem back after the inverted pass: its record is the encoding of
   its accumulator, so `getTfsForStem` returns the documents holding it with
   their counts (a stem no document holds with a positive count wrote an empty
   record, which `readDict` cannot parse).
   */
  lemma StemRecordRoundTrip(t: Tables, corpus: seq<Doc>, s: string)
    requires Valid(t)
    requires s in t.vocab
    requires forall k :: 0 <= k < |corpus| ==> KeyOk(corpus[k].id)
    ensures GetTfsForStem(InvertPass(t, corpus), s) ==
      if |Postings(corpus, s)| == 0 then Err(Malformed(NotAPair(0))) else Ok(AsMap(Postings(corpus, s)))
  {
    var rs := InvertedRecords(t.vocab, corpus);
    var L := Layout(rs, "\n");
    var k :| 0 <= k < |t.vocab| && t.vocab[k] == s;
    TableAt(t.vocab, Somes(L), k);
    ReadLayout(rs, "\n", k);
    if |Postings(corpus, s)| > 0 {
      PostingsKeysOk(corpus, s);
      DecodeEncode(Postings(corpus, s));
    }
  }

  /**
   After `indexation` on a fresh index: `docs` has one entry per document id,
   `stems` one entry per distinct term (in `vocab` order), each holding an
   extent.
   */
  lemma BuildKeys(corpus: seq<Doc>)
    ensures Build(Empty(), corpus).docs.Keys == Elems(Ids(corpus))
    ensures Build(Empty(), corpus).stems.Keys == TermsOf(corpus)
    ensures Elems(Build(Empty(), corpus).vocab) == TermsOf(corpus)
    ensures forall s :: s in Build(Empty(), corpus).stems ==> Build(Empty(), corpus).stems[s].Some?
  {
    var f := ForwardPass(Empty(), corpus);
    ForwardFromEmpty(corpus);
    assert Build(Empty(), corpus) == InvertPass(f, corpus);
    StemTableSome(f.vocab, corpus);
  }

  /** The forward pass on a fresh index: `docs` holds the corpus ids, `stems` and its order the corpus terms. */
  lemma ForwardFromEmpty(corpus: seq<Doc>)
    ensures var f := ForwardPass(Empty(), corpus);
      && Valid(f)
      && f.docs.Keys == Elems(Ids(corpus))
      && f.stems.Keys == TermsOf(corpus)
      && Elems(f.vocab) == TermsOf(corpus)
  {
    var e := Empty();
    assert e.docs.Keys == {} && e.stems.Keys == {} && e.vocab == [];
    var f := ForwardPass(e, corpus);
    assert f.vocab == VocabOrder([], corpus);
    assert Elems([]) == {};
  }

  /** Every stem the inverted pass writes gets an extent. */
  lemma StemTableSome(vocab: seq<string>, corpus: seq<Doc>)
    requires Distinct(vocab)
    ensures forall s :: s in StemTable(vocab, corpus) ==> StemTable(vocab, corpus)[s].Some?
  {
    var st := StemTable(vocab, corpus);
    forall s | s in st ensures st[s].Some? {
      var k :| 0 <= k < |vocab| && vocab[k] == s;
      TableAt(vocab, Somes(Layout(InvertedRecords(vocab, corpus), "\n")), k);
    }
  }


  /** A stem's inverted record lists a document only for a positive count the document's record holds. */
  lemma StemEntryIsInDoc(corpus: seq<Doc>, s: string, d: string, c: nat)
    requires WellFormed(corpus)
    requires var st := GetTfsForStem(Build(Empty(), corpus), s); st.Ok? && d in st.value && st.value[d] == c
    ensures var dt := GetTfsForDoc(Build(Empty(), corpus), d); dt.Ok? && s in dt.value && dt.value[s] == c && c > 0
  {
    var f := ForwardPass(Empty(), corpus);
    var r := Build(Empty(), corpus);
    assert r == InvertPass(f, corpus);
    var p := Postings(corpus, s);
    BuildKeys(corpus);
    assert s in r.stems;
    assert Valid(f) && s in f.vocab;
    StemRecordRoundTrip(f, corpus, s);
    assert GetTfsForStem(r, s) == Ok(AsMap(p));
    PostingsDistinct(corpus, s);
    AsMapMember(p, d, c);
    PostingsHas(corpus, s, d, c);
    var k :| 0 <= k < |corpus| && corpus[k].id == d && (s, c) in corpus[k].tf && c > 0;
    DocRecordRoundTrip(Empty(), corpus, k);
    AsMapMember(corpus[k].tf, s, c);
  }

  /** A positive count in a document's record is one of the stem's postings. */
  lemma DocEntryIsPosting(corpus: seq<Doc>, s: string, d: string, c: nat)
    requires WellFormed(corpus)
    requires var dt := GetTfsForDoc(Build(Empty(), corpus), d); dt.Ok? && s in dt.value && dt.value[s] == c && c > 0
    ensures (d, c) in Postings(corpus, s) && s in TermsOf(corpus)
  {
    var k := DocPosition(corpus, d);
    DocEntryOf(corpus, k, s, c);
    TermOf(corpus, k, s, c);
    PostingsHas(corpus, s, d, c);
  }

  /** A document `getTfsForDoc` can read is one of the corpus's documents. */
  lemma DocPosition(corpus: seq<Doc>, d: string) returns (k: nat)
    requires GetTfsForDoc(Build(Empty(), corpus), d).Ok?
    ensures k < |corpus| && corpus[k].id == d
  {
    BuildKeys(corpus);
    assert d in Elems(Ids(corpus));
    k :| 0 <= k < |corpus| && Ids(corpus)[k] == d;
  }

  /** An item `getTfsForDoc` gives back is an item of the document's dict. */
  lemma DocEntryOf(corpus: seq<Doc>, k: nat, s: string, c: nat)
    requires WellFormed(corpus)
    requires k < |corpus|
    requires var dt := GetTfsForDoc(Build(Empty(), corpus), corpus[k].id); dt.Ok? && s in dt.value && dt.value[s] == c
    ensures (s, c) in corpus[k].tf
  {
    DocRecordRoundTrip(Empty(), corpus, k);
    AsMapMember(corpus[k].tf, s, c);
  }

  /** A key of any document's dict is a term of the corpus. */
  lemma TermOf(corpus: seq<Doc>, k: nat, s: string, c: nat)
    requires k < |corpus|
    requires (s, c) in corpus[k].tf
    ensures s in TermsOf(corpus)
  {
    var j :| 0 <= j < |corpus[k].tf| && corpus[k].tf[j] == (s, c);
    assert Keys(corpus[k].tf)[j] == s;
    TermsOfHas(corpus, s);
  }


  /** A positive count in a document's record shows up in the stem's inverted record. */
  lemma DocEntryIsInStem(corpus: seq<Doc>, s: string, d: string, c: nat)
    requires WellFormed(corpus)
    requires var dt := GetTfsForDoc(Build(Empty(), corpus), d); dt.Ok? && s in dt.value && dt.value[s] == c && c > 0
    ensures var st := GetTfsForStem(Build(Empty(), corpus), s); st.Ok? && d in st.value && st.value[d] == c
  {
    DocEntryIsPosting(corpus, s, d, c);
    var f := ForwardPass(Empty(), corpus);
    assert Build(Empty(), corpus) == InvertPass(f, corpus);
    assert Valid(f) && s in f.vocab;
    StemRecordRoundTrip(f, corpus, s);
    PostingsDistinct(corpus, s);
    AsMapMember(Postings(corpus, s), d, c);
  }

  /**
   The inverted index agrees with the forward one: after `indexation` on a
   fresh index, `getTfsForStem(s)` lists document `d` with count `c` exactly
   when `getTfsForDoc(d)` gives `s` the count `c` and c > 0.
   */
  lemma ForwardInvertedConsistent(corpus: seq<Doc>, s: string, d: string, c: nat)
    requires WellFormed(corpus)
    ensures
      (var st := GetTfsForStem(Build(Empty(), corpus), s);
       st.Ok? && d in st.value && st.value[d] == c)
      <==>
      (var dt := GetTfsForDoc(Build(Empty(), corpus), d);
       dt.Ok? && s in dt.value && dt.value[s] == c && c > 0)
  {
    var st := GetTfsForStem(Build(Empty(), corpus), s);
    var dt := GetTfsForDoc(Build(Empty(), corpus), d);
    if st.Ok? && d in st.value && st.value[d] == c {
      StemEntryIsInDoc(corpus, s, d, c);
    }
    if dt.Ok? && s in dt.value && dt.value[s] == c && c > 0 {
      DocEntryIsInStem(corpus, s, d, c);
    }
  }
}
