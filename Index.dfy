/**
 The Index object: the tables it updates in place and the two files it
 writes, each file modelled as the characters written to it so far.
 */
module Index {
  import opened Wrappers
  import opened Dict
  import opened Text
  import opened Codec
  import opened FlatFile
  import opened IndexSpec

  class Index {
    var forward: string                     // the "<name>_index" file
    var inverted: string                    // the "<name>_inverted" file
    var docs: map<string, Extent>
    var stems: map<string, Option<Extent>>
    var vocab: seq<string>                  // insertion order of `stems`
    var docFrom: map<string, seq<string>>

    /** The object's content as a value. */
    function State(): Tables
      reads this
    {
      Tables(forward, inverted, docs, stems, vocab, docFrom)
    }

    /** `vocab` lists the keys of `stems` once each. */
    ghost predicate Valid()
      reads this
    {
      IndexSpec.Valid(State())
    }

    /** `__init__`: empty tables. */
    constructor ()
      ensures Valid() && State() == Empty()
    {
      forward, inverted := "", "";
      docs, stems, vocab, docFrom := map[], map[], [], map[];
    }

    /**
     `indexDirect`: one pass over the documents. Each document's record is
     appended to the (truncated) forward file and its extent, taken from the
     cursor before and after the write, is noted in `docs`; its "from" field
     goes to `docFrom` and each of its terms into `stems` as None.
     */
    method IndexDirect(corpus: seq<Doc>)
      requires Valid()
      modifies this`forward, this`docs, this`docFrom, this`stems, this`vocab
      ensures Valid()
      ensures State() == ForwardPass(old(State()), corpus)
    {
      ghost var t0 := State();
      assert IndexSpec.Valid(t0);
      forward := "";
      var ifcur := 0;
      var i := 0;
      ForwardPassNone(t0, corpus);
      while i < |corpus|
        invariant 0 <= i <= |corpus|
        invariant State() == ForwardPass(t0, corpus[..i])
        invariant ifcur == |forward|
        invariant Valid()
      {
        ifcur := IndexDoc(corpus[i], ifcur);
        ForwardPassStep(t0, corpus, i);
        i := i + 1;
      }
      assert corpus[..i] == corpus;
      assert State() == ForwardPass(t0, corpus);
    }

    /**
     The body of `indexDirect`'s loop for one document: its record is appended
     at cursor `ifcur`, its extent runs from there to the cursor after the
     write, which is returned.
     */
    method IndexDoc(d: Doc, ifcur: nat) returns (nfcur: nat)
      requires Valid() && ifcur == |forward|
      modifies this`forward, this`docs, this`docFrom, this`stems, this`vocab
      ensures Valid() && nfcur == |forward|
      ensures State() == ForwardStep(old(State()), d)
    {
      forward := forward + Encode(d.tf);
      nfcur := |forward|;
      docs := docs[d.id := Extent(ifcur, nfcur - ifcur)];
      docFrom := docFrom[d.id := Split(d.from, ';')];
      AddStems(Keys(d.tf));
    }

    /** The `for s in st: self.stems[s] = None` loop of `indexDirect`. */
    method AddStems(ks: seq<string>)
      requires Valid()
      modifies this`stems, this`vocab
      ensures Valid()
      ensures stems == old(stems) + NoneTable(Elems(ks))
      ensures vocab == AppendNew(old(vocab), ks)
    {
      ghost var stems0, vocab0 := stems, vocab;
      var j := 0;
      while j < |ks|
        invariant 0 <= j <= |ks|
        invariant stems == SetNone(stems0, ks[..j])
        invariant vocab == AppendNew(vocab0, ks[..j])
      {
        var s := ks[j];
        AddStemStep(stems0, vocab0, ks, j);
        if s !in stems {
          vocab := vocab + [s];
        }
        stems := stems[s := None];
        j := j + 1;
      }
      assert ks[..j] == ks;
      AddStemsValid(stems0, vocab0, ks);
    }

    /**
     `indexInversed`, in its intended single-pass form: one pass over the
     documents fills each stem's accumulator with `(id, c)` for every c > 0,
     then each stem in `stems` order gets its record appended to the
     (truncated) inverted file, followed by a newline, and its extent noted.
     */
    method IndexInversed(corpus: seq<Doc>)
      requires Valid()
      modifies this`inverted, this`stems
      ensures Valid()
      ensures State() == InvertPass(old(State()), corpus)
    {
      var acc := Accumulate(stems.Keys, corpus);
      WriteRecords(corpus, acc);
    }

    /**
     The writing loop of `indexInversed`: the inverted file is truncated and
     each stem in `stems` order gets its accumulated postings written.
     */
    method WriteRecords(corpus: seq<Doc>, acc: map<string, Entries>)
      requires Valid()
      requires acc.Keys == stems.Keys
      requires forall s :: s in acc ==> acc[s] == Postings(corpus, s)
      modifies this`inverted, this`stems
      ensures Valid()
      ensures State() == InvertPass(old(State()), corpus)
    {
      ghost var t0 := State();
      assert IndexSpec.Valid(t0);
      PartialNone(t0, corpus);
      inverted := "";
      var ifcur := 0;
      var k := 0;
      while k < |vocab|
        invariant 0 <= k <= |t0.vocab|
        invariant inverted == PartialFile(t0, corpus, k)
        invariant stems == PartialStems(t0, corpus, k)
        invariant ifcur == |inverted|
      {
        var s := vocab[k];
        assert s in Elems(t0.vocab);
        ifcur := WriteStem(s, acc[s], ifcur);
        InvertStep(t0, corpus, k);
        k := k + 1;
      }
      InvertPassFrom(t0, corpus, k, inverted, stems);
    }

    /**
     The body of `indexInversed`'s writing loop for stem `s`: its record is
     appended at cursor `ifcur`, followed by a newline; the extent noted for
     `s` runs from `ifcur` to the cursor before the newline. The cursor after
     the newline is returned.
     */
    method WriteStem(s: string, postings: Entries, ifcur: nat) returns (next: nat)
      requires ifcur == |inverted|
      modifies this`inverted, this`stems
      ensures next == |inverted|
      ensures inverted == old(inverted) + Encode(postings) + "\n"
      ensures stems == old(stems)[s := Some(Extent(ifcur, |Encode(postings)|))]
    {
      inverted := inverted + Encode(postings);
      var nfcur := |inverted|;
      inverted := inverted + "\n";
      stems := stems[s := Some(Extent(ifcur, nfcur - ifcur))];
      next := |inverted|;
    }

    /** `indexation`: the forward pass, then the inverted pass. */
    method Indexation(corpus: seq<Doc>)
      requires Valid()
      modifies this
      ensures Valid()
      ensures State() == Build(old(State()), corpus)
    {
      IndexDirect(corpus);
      IndexInversed(corpus);
    }
  }

  /**
   The single pass over the documents that `indexInversed` intends: each
   stem of `terms` collects `(id, c)` for every document holding it with a
   count c > 0, in document order.
   */
  method Accumulate(terms: set<string>, corpus: seq<Doc>) returns (acc: map<string, Entries>)
    ensures acc.Keys == terms
    ensures forall s :: s in acc ==> acc[s] == Postings(corpus, s)
  {
    acc := map s | s in terms :: [];
    var i := 0;
    while i < |corpus|
      invariant 0 <= i <= |corpus|
      invariant acc.Keys == terms
      invariant forall s :: s in acc ==> acc[s] == Postings(corpus[..i], s)
    {
      acc := AccumulateDoc(acc, corpus[i]);
      PostingsStep(corpus, i);
      i := i + 1;
    }
    assert corpus[..i] == corpus;
  }

  /** The loop over one document's items: `(d.id, c)` joins the accumulator of its stem when c > 0. */
  method AccumulateDoc(acc0: map<string, Entries>, d: Doc) returns (acc: map<string, Entries>)
    ensures acc.Keys == acc0.Keys
    ensures forall s :: s in acc ==> acc[s] == acc0[s] + EntryPostings(d.id, d.tf, s)
  {
    acc := acc0;
    var j := 0;
    while j < |d.tf|
      invariant 0 <= j <= |d.tf|
      invariant acc.Keys == acc0.Keys
      invariant forall s :: s in acc ==> acc[s] == acc0[s] + EntryPostings(d.id, d.tf[..j], s)
    {
      ghost var before := acc;
      var (s, c) := d.tf[j];
      if c > 0 && s in acc {
        acc := acc[s := acc[s] + [(d.id, c)]];
      }
      AccumulateItem(acc0, before, acc, d.id, d.tf, j);
      j := j + 1;
    }
    assert d.tf[..j] == d.tf;
  }

  // ---- one step of each loop, as the specification functions see it ----

  /** What one document of `indexDirect` does to the tables. */
  ghost function ForwardStep(t: Tables, d: Doc): Tables
  {
    t.(forward := t.forward + Encode(d.tf),
       docs := t.docs[d.id := Extent(|t.forward|, |Encode(d.tf)|)],
       docFrom := t.docFrom[d.id := Split(d.from, ';')],
       stems := t.stems + NoneTable(Elems(Keys(d.tf))),
       vocab := AppendNew(t.vocab, Keys(d.tf)))
  }

  /** One document of `indexDirect`, as `ForwardPass` sees it. */
  lemma ForwardPassStep(t0: Tables, corpus: seq<Doc>, i: nat)
    requires i < |corpus|
    ensures ForwardPass(t0, corpus[..i + 1]) == ForwardStep(ForwardPass(t0, corpus[..i]), corpus[i])
  {
    var c := corpus[..i + 1];
    var d := corpus[i];
    assert c[..i] == corpus[..i];
    ForwardRecordsStep(corpus, i);
    FromTableStep(corpus, i);
    assert TermsOf(c) == TermsOf(corpus[..i]) + Elems(Keys(d.tf));
    NoneTableUnion(TermsOf(corpus[..i]), Elems(Keys(d.tf)));
    assert VocabOrder(t0.vocab, c) == AppendNew(VocabOrder(t0.vocab, corpus[..i]), Keys(d.tf));
    UnionAssoc(t0.stems, NoneTable(TermsOf(corpus[..i])), NoneTable(Elems(Keys(d.tf))));
    UnionUpdate(t0.docs, DocTable(corpus[..i]), d.id, Extent(|ForwardFile(corpus[..i])|, |Encode(d.tf)|));
    UnionUpdate(t0.docFrom, FromTable(corpus[..i]), d.id, Split(d.from, ';'));
  }

  /** Before the first document, `indexDirect` has only truncated the forward file. */
  lemma ForwardPassNone(t: Tables, corpus: seq<Doc>)
    ensures ForwardPass(t, corpus[..0]) == t.(forward := "")
  {
    assert corpus[..0] == [];
    assert DocTable([]) == map[] && FromTable([]) == map[] && NoneTable(TermsOf([])) == map[];
    assert t.docs + map[] == t.docs && t.docFrom + map[] == t.docFrom;
    assert t.stems + map[] == t.stems;
  }

  lemma ForwardRecordsStep(corpus: seq<Doc>, i: nat)
    requires i < |corpus|
    ensures ForwardFile(corpus[..i + 1]) == ForwardFile(corpus[..i]) + Encode(corpus[i].tf)
    ensures DocTable(corpus[..i + 1]) ==
      DocTable(corpus[..i])[corpus[i].id := Extent(|ForwardFile(corpus[..i])|, |Encode(corpus[i].tf)|)]
  {
    var c := corpus[..i + 1];
    assert c[..i] == corpus[..i];
    assert ForwardRecords(c)[..i] == ForwardRecords(corpus[..i]);
    assert Ids(c)[..i] == Ids(corpus[..i]);
    assert Layout(ForwardRecords(c), "")[..i] == Layout(ForwardRecords(corpus[..i]), "");
  }

  lemma FromTableStep(corpus: seq<Doc>, i: nat)
    requires i < |corpus|
    ensures FromTable(corpus[..i + 1]) == FromTable(corpus[..i])[corpus[i].id := Split(corpus[i].from, ';')]
  {
    var c := corpus[..i + 1];
    assert c[..i] == corpus[..i];
    assert Ids(c)[..i] == Ids(corpus[..i]);
    var froms := seq(|c|, k requires 0 <= k < |c| => Split(c[k].from, ';'));
    assert froms[..i] == seq(i, k requires 0 <= k < i => Split(corpus[..i][k].from, ';'));
  }

  lemma NoneTableUnion(a: set<string>, b: set<string>)
    ensures NoneTable(a + b) == NoneTable(a) + NoneTable(b)
  {
  }

  lemma EntryPostingsStep(id: string, es: Entries, j: nat, s: string)
    requires j < |es|
    ensures EntryPostings(id, es[..j + 1], s) ==
      EntryPostings(id, es[..j], s) + (if es[j].0 == s && es[j].1 > 0 then [(id, es[j].1)] else [])
  {
    assert es[..j + 1][..j] == es[..j];
  }

  /** One item of a document's dict, as the accumulator sees it. */
  lemma AccumulateItem(acc0: map<string, Entries>, acc: map<string, Entries>, acc': map<string, Entries>,
                       id: string, es: Entries, j: nat)
    requires j < |es|
    requires acc.Keys == acc0.Keys
    requires forall s :: s in acc ==> acc[s] == acc0[s] + EntryPostings(id, es[..j], s)
    requires acc' == if es[j].1 > 0 && es[j].0 in acc then acc[es[j].0 := acc[es[j].0] + [(id, es[j].1)]] else acc
    ensures acc'.Keys == acc0.Keys
    ensures forall s :: s in acc' ==> acc'[s] == acc0[s] + EntryPostings(id, es[..j + 1], s)
  {
    forall s | s in acc' ensures acc'[s] == acc0[s] + EntryPostings(id, es[..j + 1], s) {
      EntryPostingsStep(id, es, j, s);
    }
  }

  lemma PostingsStep(corpus: seq<Doc>, i: nat)
    requires i < |corpus|
    ensures forall s :: (Postings(corpus[..i + 1], s) ==
      Postings(corpus[..i], s) + EntryPostings(corpus[i].id, corpus[i].tf, s))
  {
    assert corpus[..i + 1][..i] == corpus[..i];
  }

  /** The inverted file once the first `k` stems of `vocab` have their record. */
  ghost function PartialFile(t0: Tables, corpus: seq<Doc>, k: nat): string
    requires k <= |t0.vocab|
  {
    InvertedFile(t0.vocab[..k], corpus)
  }

  /** The `stems` table once the first `k` stems of `vocab` have their extent. */
  ghost function PartialStems(t0: Tables, corpus: seq<Doc>, k: nat): map<string, Option<Extent>>
    requires k <= |t0.vocab|
  {
    t0.stems + StemTable(t0.vocab[..k], corpus)
  }

  /** Before the writing loop: the file is empty and `stems` is as it was. */
  lemma PartialNone(t0: Tables, corpus: seq<Doc>)
    ensures PartialFile(t0, corpus, 0) == "" && PartialStems(t0, corpus, 0) == t0.stems
  {
    assert t0.vocab[..0] == [];
    assert StemTable([], corpus) == map[];
    assert t0.stems + map[] == t0.stems;
  }

  /** Once every stem of `vocab` has its record, the inverted pass is done. */
  lemma InvertPassFrom(t0: Tables, corpus: seq<Doc>, k: nat, inverted: string, stems: map<string, Option<Extent>>)
    requires k == |t0.vocab|
    requires inverted == PartialFile(t0, corpus, k)
    requires stems == PartialStems(t0, corpus, k)
    ensures t0.(inverted := inverted, stems := stems) == InvertPass(t0, corpus)
  {
    assert t0.vocab[..k] == t0.vocab;
  }

  /** One stem of `indexInversed`'s writing loop. */
  lemma InvertStep(t0: Tables, corpus: seq<Doc>, k: nat)
    requires k < |t0.vocab|
    ensures var rec := Encode(Postings(corpus, t0.vocab[k]));
      && PartialFile(t0, corpus, k + 1) == PartialFile(t0, corpus, k) + rec + "\n"
      && PartialStems(t0, corpus, k + 1) ==
           PartialStems(t0, corpus, k)[t0.vocab[k] := Some(Extent(|PartialFile(t0, corpus, k)|, |rec|))]
  {
    var vocab := t0.vocab;
    var v := vocab[..k + 1];
    assert v[..k] == vocab[..k];
    var rs := InvertedRecords(v, corpus);
    assert rs[..k] == InvertedRecords(vocab[..k], corpus);
    assert Somes(Layout(rs, "\n"))[..k] == Somes(Layout(InvertedRecords(vocab[..k], corpus), "\n"));
    var s := vocab[k];
    var rec := Encode(Postings(corpus, s));
    assert InvertedFile(v, corpus) == InvertedFile(vocab[..k], corpus) + rec + "\n";
    var e := Some(Extent(|InvertedFile(vocab[..k], corpus)|, |rec|));
    assert StemTable(v, corpus) == StemTable(vocab[..k], corpus)[s := e];
    UnionUpdate(t0.stems, StemTable(vocab[..k], corpus), s, e);
  }

  /** The stems table after `stems[s] = None` for each of `ks` in turn. */
  ghost function SetNone(m: map<string, Option<Extent>>, ks: seq<string>): map<string, Option<Extent>>
  {
    if |ks| == 0 then m else SetNone(m, ks[..|ks| - 1])[ks[|ks| - 1] := None]
  }

  lemma {:induction false} SetNoneIsUnion(m: map<string, Option<Extent>>, ks: seq<string>)
    ensures SetNone(m, ks) == m + NoneTable(Elems(ks))
  {
    if |ks| == 0 {
      assert m + NoneTable(Elems(ks)) == m;
    } else {
      var n := |ks| - 1;
      SetNoneIsUnion(m, ks[..n]);
      assert Elems(ks) == Elems(ks[..n]) + {ks[n]} by {
        assert ks == ks[..n] + [ks[n]];
      }
      NoneTableAdd(m, Elems(ks[..n]), ks[n]);
    }
  }

  /** One key of the `for s in st` loop: `stems[s] = None`, and `s` joins the order if new. */
  lemma AddStemStep(stems0: map<string, Option<Extent>>, vocab0: seq<string>, ks: seq<string>, j: nat)
    requires j < |ks|
    requires Distinct(vocab0) && Elems(vocab0) == stems0.Keys
    ensures SetNone(stems0, ks[..j])[ks[j] := None] == SetNone(stems0, ks[..j + 1])
    ensures (ks[j] in SetNone(stems0, ks[..j])) == (ks[j] in AppendNew(vocab0, ks[..j]))
    ensures ks[j] in AppendNew(vocab0, ks[..j]) ==> AppendNew(vocab0, ks[..j]) == AppendNew(vocab0, ks[..j + 1])
    ensures ks[j] !in AppendNew(vocab0, ks[..j]) ==> AppendNew(vocab0, ks[..j]) + [ks[j]] == AppendNew(vocab0, ks[..j + 1])
  {
    assert ks[..j + 1][..j] == ks[..j];
    SetNoneIsUnion(stems0, ks[..j]);
  }

  lemma AddStemsValid(stems0: map<string, Option<Extent>>, vocab0: seq<string>, ks: seq<string>)
    requires Distinct(vocab0) && Elems(vocab0) == stems0.Keys
    ensures Distinct(AppendNew(vocab0, ks))
    ensures Elems(AppendNew(vocab0, ks)) == SetNone(stems0, ks).Keys
    ensures SetNone(stems0, ks) == stems0 + NoneTable(Elems(ks))
  {
    SetNoneIsUnion(stems0, ks);
  }

  lemma UnionUpdate<V>(a: map<string, V>, b: map<string, V>, k: string, v: V)
    ensures (a + b)[k := v] == a + b[k := v]
  {
  }

  lemma UnionAssoc<V>(a: map<string, V>, b: map<string, V>, c: map<string, V>)
    ensures a + b + c == a + (b + c)
  {
  }

  lemma NoneTableAdd(m: map<string, Option<Extent>>, terms: set<string>, s: string)
    ensures (m + NoneTable(terms))[s := None] == m + NoneTable(terms + {s})
  {
  }
}
