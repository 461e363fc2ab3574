/**
 What building an index produces, stated as functions of the documents the
 parser yields: the forward file and `docs` table (`Index.indexDirect`), the
 inverted file and `stems` table (`Index.indexInversed`, in its intended
 single-pass form), and the random-access readers `getTfsForDoc` and
 `getTfsForStem`.
 */
module IndexSpec {
  import opened Wrappers
  import opened Dict
  import opened Text
  import opened Codec
  import opened FlatFile

  /**
   One document as the parser and the text representer hand it over: its id,
   the items of its term -> count dict, and its raw "from" field.
   */
  datatype Doc = Doc(id: string, tf: Entries, from: string)

  /** Everything an Index object holds once built. */
  datatype Tables = Tables(
    forward: string,                    // contents of the "<name>_index" file
    inverted: string,                   // contents of the "<name>_inverted" file
    docs: map<string, Extent>,          // document id -> its forward record
    stems: map<string, Option<Extent>>, // stem -> None, then its inverted record
    vocab: seq<string>,                 // the insertion order of `stems`
    docFrom: map<string, seq<string>>)  // document id -> its split "from" field

  /** `stems` as an ordered dict: `vocab` lists its keys once each. */
  predicate Valid(t: Tables)
  {
    Distinct(t.vocab) && Elems(t.vocab) == t.stems.Keys
  }

  /** The state `Index.__init__` leaves: empty tables, no file written yet. */
  function Empty(): (t: Tables)
    ensures Valid(t)
  {
    Tables("", "", map[], map[], [], map[])
  }

  // ---------------------------------------------------------------------------
  // Forward pass

  function Ids(corpus: seq<Doc>): (ids: seq<string>)
    ensures |ids| == |corpus|
  {
    seq(|corpus|, i requires 0 <= i < |corpus| => corpus[i].id)
  }

  /** The record written for each document, in parser order. */
  function ForwardRecords(corpus: seq<Doc>): (rs: seq<string>)
    ensures |rs| == |corpus|
  {
    seq(|corpus|, i requires 0 <= i < |corpus| => Encode(corpus[i].tf))
  }

  /** The forward file: the records back to back, with no terminator. */
  function ForwardFile(corpus: seq<Doc>): string
  {
    Concat(ForwardRecords(corpus), "")
  }

  /** `docs[id] = (ifcur, nfcur - ifcur)` for each document, a repeated id keeping its last record. */
  function DocTable(corpus: seq<Doc>): (t: map<string, Extent>)
    ensures t.Keys == Elems(Ids(corpus))
  {
    Table(Ids(corpus), Layout(ForwardRecords(corpus), ""))
  }

  /** `docFrom[id] = d.get("from").split(";")`. */
  function FromTable(corpus: seq<Doc>): (t: map<string, seq<string>>)
    ensures t.Keys == Elems(Ids(corpus))
  {
    Table(Ids(corpus), seq(|corpus|, i requires 0 <= i < |corpus| => Split(corpus[i].from, ';')))
  }

  /** Every term of every document. */
  function TermsOf(corpus: seq<Doc>): set<string>
  {
    if |corpus| == 0 then {}
    else TermsOf(corpus[..|corpus| - 1]) + Elems(Keys(corpus[|corpus| - 1].tf))
  }

  /** A term occurs in the corpus exactly when some document's dict has it as a key. */
  lemma {:induction false} TermsOfHas(corpus: seq<Doc>, s: string)
    ensures s in TermsOf(corpus) <==> exists k :: 0 <= k < |corpus| && s in Keys(corpus[k].tf)
  {
    if |corpus| > 0 {
      var n := |corpus| - 1;
      TermsOfHas(corpus[..n], s);
      if s in TermsOf(corpus[..n]) {
        var k :| 0 <= k < n && s in Keys(corpus[..n][k].tf);
        assert corpus[..n][k] == corpus[k];
      }
      if exists k :: 0 <= k < |corpus| && s in Keys(corpus[k].tf) {
        var k :| 0 <= k < |corpus| && s in Keys(corpus[k].tf);
        if k < n {
          assert corpus[..n][k] == corpus[k];
        }
      }
    }
  }

  /** `stems[s] = None` for each term: each new key joins the end of the dict's order. */
  function AppendNew(order: seq<string>, ks: seq<string>): (r: seq<string>)
    ensures Distinct(order) ==> Distinct(r)
    ensures Elems(r) == Elems(order) + Elems(ks)
    ensures |r| >= |order| && r[..|order|] == order
  {
    if |ks| == 0 then order
    else
      var n := |ks| - 1;
      var p := AppendNew(order, ks[..n]);
      assert Elems(ks) == Elems(ks[..n]) + {ks[n]} by { assert ks == ks[..n] + [ks[n]]; }
      if ks[n] in p then p
      else
        assert Elems(p + [ks[n]]) == Elems(p) + {ks[n]};
        p + [ks[n]]
  }

  /** The insertion order of `stems` after the forward pass, starting from `order`. */
  function VocabOrder(order: seq<string>, corpus: seq<Doc>): (r: seq<string>)
    ensures Distinct(order) ==> Distinct(r)
    ensures Elems(r) == Elems(order) + TermsOf(corpus)
  {
    if |corpus| == 0 then order
    else
      var n := |corpus| - 1;
      AppendNew(VocabOrder(order, corpus[..n]), Keys(corpus[n].tf))
  }

  function NoneTable(terms: set<string>): (m: map<string, Option<Extent>>)
    ensures m.Keys == terms
  {
    map s | s in terms :: None
  }

  /**
   The state `indexDirect` leaves: the forward file rewritten from scratch,
   and `docs`, `docFrom` and `stems` updated in place (entries from an earlier
   run stay unless overwritten; every term now maps to None).
   */
  function ForwardPass(t: Tables, corpus: seq<Doc>): (r: Tables)
    ensures Valid(t) ==> Valid(r)
    ensures r.docs.Keys == t.docs.Keys + Elems(Ids(corpus))
    ensures r.stems.Keys == t.stems.Keys + TermsOf(corpus)
    ensures r.inverted == t.inverted
  {
    Tables(
      ForwardFile(corpus),
      t.inverted,
      t.docs + DocTable(corpus),
      t.stems + NoneTable(TermsOf(corpus)),
      VocabOrder(t.vocab, corpus),
      t.docFrom + FromTable(corpus))
  }

  // ---------------------------------------------------------------------------
  // Inverted pass

  /** The postings one document adds to stem `s`'s record: `(id, c)` for each item `(s, c)` with c > 0. */
  function EntryPostings(id: string, es: Entries, s: string): Entries
  {
    if |es| == 0 then []
    else
      var n := |es| - 1;
      EntryPostings(id, es[..n], s) + (if es[n].0 == s && es[n].1 > 0 then [(id, es[n].1)] else [])
  }

  /** Stem `s`'s accumulator after one pass over the documents, in document order. */
  function Postings(corpus: seq<Doc>, s: string): Entries
  {
    if |corpus| == 0 then []
    else
      var n := |corpus| - 1;
      Postings(corpus[..n], s) + EntryPostings(corpus[n].id, corpus[n].tf, s)
  }

  /** The record written for each stem, in `stems` order. */
  function InvertedRecords(vocab: seq<string>, corpus: seq<Doc>): (rs: seq<string>)
    ensures |rs| == |vocab|
  {
    seq(|vocab|, k requires 0 <= k < |vocab| => Encode(Postings(corpus, vocab[k])))
  }

  /** The inverted file: each stem's record followed by a newline. */
  function InvertedFile(vocab: seq<string>, corpus: seq<Doc>): string
  {
    Concat(InvertedRecords(vocab, corpus), "\n")
  }

  function Somes(es: seq<Extent>): (r: seq<Option<Extent>>)
    ensures |r| == |es|
  {
    seq(|es|, i requires 0 <= i < |es| => Some(es[i]))
  }

  /** `stems[s] = (start, length)` of each stem's record, the newline left outside it. */
  function StemTable(vocab: seq<string>, corpus: seq<Doc>): (t: map<string, Option<Extent>>)
    ensures t.Keys == Elems(vocab)
  {
    Table(vocab, Somes(Layout(InvertedRecords(vocab, corpus), "\n")))
  }

  /**
   The state the inverted pass leaves: the inverted file rewritten from
   scratch and every stem of the vocabulary given its record.
   */
  function InvertPass(t: Tables, corpus: seq<Doc>): (r: Tables)
    ensures Valid(t) ==> Valid(r) && r.stems == StemTable(t.vocab, corpus)
    ensures r.forward == t.forward && r.docs == t.docs && r.vocab == t.vocab && r.docFrom == t.docFrom
  {
    t.(inverted := InvertedFile(t.vocab, corpus), stems := t.stems + StemTable(t.vocab, corpus))
  }

  /** `indexation`: the forward pass, then the inverted pass. */
  function Build(t: Tables, corpus: seq<Doc>): (r: Tables)
    ensures Valid(t) ==> Valid(r)
  {
    InvertPass(ForwardPass(t, corpus), corpus)
  }

  // ---------------------------------------------------------------------------
  // Readers

  /** The exceptions the readers let escape. */
  datatype IndexError =
    | UnknownDocument(id: string)   // KeyError on `self.docs[doc]`
    | NotInverted(stem: string)     // `stems[stem]` is still None: TypeError
    | Malformed(cause: DecodeError) // ValueError from `readDict`

  /**
   `getTfsForDoc`: decode the forward record the `docs` table points at. An
   unknown document is an error, never an empty dict.
   */
  function GetTfsForDoc(t: Tables, doc: string): (r: Result<map<string, nat>, IndexError>)
    ensures r == Err(UnknownDocument(doc)) <==> doc !in t.docs
    ensures r.Ok? ==> forall k :: k in r.value ==> KeyOk(k)
  {
    if doc !in t.docs then Err(UnknownDocument(doc))
    else match Decode(Read(t.forward, t.docs[doc]))
      case Err(e) => Err(Malformed(e))
      case Ok(m) => Ok(m)
  }

  /**
   `getTfsForStem`: decode the inverted record the `stems` table points at.
   A stem the corpus never had gives the empty dict (the KeyError is caught).
   */
  function GetTfsForStem(t: Tables, stem: string): (r: Result<map<string, nat>, IndexError>)
    ensures stem !in t.stems ==> r == Ok(map[])
    ensures stem in t.stems && t.stems[stem].None? ==> r == Err(NotInverted(stem))
    ensures r.Ok? && r.value != map[] ==> stem in t.stems
  {
    if stem !in t.stems then Ok(map[])
    else match t.stems[stem]
      case None => Err(NotInverted(stem))
      case Some(e) =>
        match Decode(Read(t.inverted, e))
        case Err(err) => Err(Malformed(err))
        case Ok(m) => Ok(m)
  }
}
