/**
 The extents `indexInversed` notes as its code is written. After each
 stem's record the loop sets `ifcur = nfcur`, where `nfcur` was taken
 before the newline was written, so every extent after the first starts on
 the previous record's newline and is one character longer than its record.
 Read back, that record decodes with its first document id prefixed by a
 newline. The rest of the model uses the intended extents
 (`IndexSpec.StemTable`, proved by `IndexLemmas.StemRecordRoundTrip`).
 */
module Offsets {
  import opened Wrappers
  import opened Dict
  import opened Text
  import opened Codec
  import opened FlatFile
  import opened IndexSpec
  import opened IndexLemmas

  /**
   The extents noted for records `rs` written one after the other, each
   followed by a newline: record n starts where the previous iteration left
   `ifcur` (its `nfcur`, the cursor just before its newline) and ends at the
   cursor after its own text.
   */
  function AsWrittenExtents(rs: seq<string>): (es: seq<Extent>)
    ensures |es| == |rs|
  {
    if |rs| == 0 then []
    else
      var n := |rs| - 1;
      var init := rs[..n];
      var ifcur := if n == 0 then 0 else |Concat(init[..n - 1], "\n")| + |init[n - 1]|;
      var nfcur := |Concat(init, "\n")| + |rs[n]|;
      AsWrittenExtents(init) + [Extent(ifcur, nfcur - ifcur)]
  }

  lemma {:induction false} AsWrittenPrefix(rs: seq<string>, j: nat)
    requires j <= |rs|
    ensures AsWrittenExtents(rs[..j]) == AsWrittenExtents(rs)[..j]
  {
    if j < |rs| {
      var n := |rs| - 1;
      assert rs[..n][..j] == rs[..j];
      AsWrittenPrefix(rs[..n], j);
    } else {
      assert rs[..j] == rs;
    }
  }

  /** The extent noted for record k >= 1: from the previous record's `nfcur` to the cursor after record k. */
  lemma AsWrittenAt(rs: seq<string>, k: nat)
    requires 1 <= k < |rs|
    ensures AsWrittenExtents(rs)[k].start == |Concat(rs[..k - 1], "\n")| + |rs[k - 1]|
    ensures AsWrittenExtents(rs)[k].start + AsWrittenExtents(rs)[k].length == |Concat(rs[..k], "\n")| + |rs[k]|
  {
    AsWrittenPrefix(rs, k + 1);
    var pre := rs[..k + 1];
    assert pre[..k] == rs[..k] && pre[k] == rs[k];
    assert rs[..k][..k - 1] == rs[..k - 1] && rs[..k][k - 1] == rs[k - 1];
  }

  /**
   The as-written extents against the intended ones: the first is the same,
   every later one starts one character earlier and is one longer.
   */
  lemma AsWrittenShift(rs: seq<string>, k: nat)
    requires k < |rs|
    ensures k == 0 ==> AsWrittenExtents(rs)[0] == Layout(rs, "\n")[0]
    ensures k >= 1 ==>
      && AsWrittenExtents(rs)[k].start + 1 == Layout(rs, "\n")[k].start
      && AsWrittenExtents(rs)[k].length == Layout(rs, "\n")[k].length + 1
  {
    LayoutAt(rs, "\n", k);
    if k == 0 {
      AsWrittenPrefix(rs, 1);
      assert rs[..1][..0] == [] && rs[..0] == [];
    } else {
      AsWrittenAt(rs, k);
      LayoutAt(rs, "\n", k - 1);
    }
  }

  /**
   Reading a later record back through its as-written extent gives a newline
   followed by the record; the first record reads back as written.
   */
  lemma AsWrittenRead(rs: seq<string>, k: nat)
    requires k < |rs|
    ensures Read(Concat(rs, "\n"), AsWrittenExtents(rs)[k]) == if k == 0 then rs[0] else "\n" + rs[k]
  {
    if k == 0 {
      AsWrittenReadFirst(rs);
    } else {
      AsWrittenReadLater(rs, k);
    }
  }

  lemma AsWrittenReadFirst(rs: seq<string>)
    requires 0 < |rs|
    ensures Read(Concat(rs, "\n"), AsWrittenExtents(rs)[0]) == rs[0]
  {
    AsWrittenShift(rs, 0);
    ReadLayout(rs, "\n", 0);
  }

  lemma AsWrittenReadLater(rs: seq<string>, k: nat)
    requires 1 <= k < |rs|
    ensures Read(Concat(rs, "\n"), AsWrittenExtents(rs)[k]) == "\n" + rs[k]
  {
    var x := Concat(rs[..k - 1], "\n") + rs[k - 1];
    var y := "\n" + rs[k];
    AsWrittenAt(rs, k);
    ConcatTwo(rs, k);
    SliceMiddle(x, y, "\n");
    ConcatPrefix(rs, "\n", k + 1);
    ReadPrefix(Concat(rs, "\n"), Concat(rs[..k + 1], "\n"), AsWrittenExtents(rs)[k]);
  }

  /** The file up to record k: the records before k - 1, record k - 1, a newline, record k and a newline. */
  lemma ConcatTwo(rs: seq<string>, k: nat)
    requires 1 <= k < |rs|
    ensures Concat(rs[..k + 1], "\n") == (Concat(rs[..k - 1], "\n") + rs[k - 1]) + ("\n" + rs[k]) + "\n"
    ensures Concat(rs[..k], "\n") == Concat(rs[..k - 1], "\n") + rs[k - 1] + "\n"
  {
    LayoutAt(rs, "\n", k);
    LayoutAt(rs, "\n", k - 1);
  }

  /**
   `readDict` on a newline followed by a record: the first key comes back
   with the newline in front of it, everything else as written.
   */
  lemma DecodeAfterNewline(es: Entries)
    requires |es| >= 1
    requires EntriesOk(es)
    ensures Decode("\n" + Encode(es)) == Ok(AsMap([("\n" + es[0].0, es[0].1)] + es[1..]))
  {
    var es' := [("\n" + es[0].0, es[0].1)] + es[1..];
    assert EntriesOk(es') by {
      forall i | 0 <= i < |es'| ensures KeyOk(es'[i].0) {
        if i > 0 {
          assert es'[i] == es[i];
        }
      }
    }
    var ps, ps' := Pieces(es), Pieces(es');
    assert ps'[0] == "\n" + ps[0];
    assert ps'[1..] == ps[1..];
    if |es| == 1 {
      assert Encode(es') == "\n" + Encode(es);
    } else {
      assert Join(ps', ';') == ps'[0] + [';'] + Join(ps'[1..], ';');
      assert Join(ps, ';') == ps[0] + [';'] + Join(ps[1..], ';');
      assert Encode(es') == "\n" + Encode(es);
    }
    DecodeEncode(es');
  }

  /** The inverted pass with the extents as the loop notes them. */
  function InvertPassAsWritten(t: Tables, corpus: seq<Doc>): (r: Tables)
    ensures r.inverted == InvertPass(t, corpus).inverted
    ensures r.stems.Keys == t.stems.Keys + Elems(t.vocab)
  {
    var rs := InvertedRecords(t.vocab, corpus);
    t.(inverted := InvertedFile(t.vocab, corpus),
       stems := t.stems + Table(t.vocab, Somes(AsWrittenExtents(rs))))
  }

  /**
   Renaming the first key of a dict with distinct, newline-free keys to a
   newline followed by that key: the old key is gone, the new one carries its count.
   */
  lemma NewlineFirstKey(p: Entries)
    requires |p| >= 1 && DistinctKeys(p)
    requires forall i :: 0 <= i < |p| ==> '\n' !in p[i].0
    ensures var m := AsMap([("\n" + p[0].0, p[0].1)] + p[1..]);
      p[0].0 !in m && "\n" + p[0].0 in m && m["\n" + p[0].0] == p[0].1
  {
    var es' := [("\n" + p[0].0, p[0].1)] + p[1..];
    assert '\n' in es'[0].0;
    forall i | 1 <= i < |es'| ensures es'[i] == p[i] && '\n' !in es'[i].0 && es'[i].0 != p[0].0 {
    }
    assert DistinctKeys(es');
    AsMapAt(es', 0);
    AsMapHas(es', p[0].0);
    assert es'[0].0 != p[0].0 by { assert |es'[0].0| == |p[0].0| + 1; }
  }

  /**
   As written, `getTfsForStem` on any stem after the first loses the first
   document of its record: that id comes back as a newline followed by the
   id, with the right count.
   */
  lemma AsWrittenLosesFirstDocument(t: Tables, corpus: seq<Doc>, k: nat)
    requires Valid(t)
    requires 1 <= k < |t.vocab|
    requires forall j :: 0 <= j < |corpus| ==> KeyOk(corpus[j].id) && '\n' !in corpus[j].id
    requires Distinct(Ids(corpus))
    requires forall j :: 0 <= j < |corpus| ==> DistinctKeys(corpus[j].tf)
    requires |Postings(corpus, t.vocab[k])| > 0
    ensures var p := Postings(corpus, t.vocab[k]);
      var r := GetTfsForStem(InvertPassAsWritten(t, corpus), t.vocab[k]);
      && r.Ok?
      && p[0].0 !in r.value
      && "\n" + p[0].0 in r.value && r.value["\n" + p[0].0] == p[0].1
  {
    var s := t.vocab[k];
    var p := Postings(corpus, s);
    AsWrittenStemRecord(t, corpus, k);
    PostingsKeysOk(corpus, s);
    DecodeAfterNewline(p);
    PostingsDistinct(corpus, s);
    forall i | 0 <= i < |p| ensures '\n' !in p[i].0 {
      assert p[i] in p;
      PostingsHas(corpus, s, p[i].0, p[i].1);
    }
    NewlineFirstKey(p);
  }

  /** As written, `getTfsForStem` on a stem after the first decodes a newline followed by its record. */
  lemma AsWrittenStemRecord(t: Tables, corpus: seq<Doc>, k: nat)
    requires Valid(t)
    requires 1 <= k < |t.vocab|
    ensures GetTfsForStem(InvertPassAsWritten(t, corpus), t.vocab[k]) ==
      match Decode("\n" + Encode(Postings(corpus, t.vocab[k])))
      case Err(e) => Err(Malformed(e))
      case Ok(m) => Ok(m)
  {
    var rs := InvertedRecords(t.vocab, corpus);
    TableAt(t.vocab, Somes(AsWrittenExtents(rs)), k);
    AsWrittenRead(rs, k);
  }

  /** The scenario of two documents and three stems: the second stem's extent covers the newline before it. */
  lemma AsWrittenExample()
    ensures AsWrittenExtents(["D1:2", "D1:1;D2:1", "D2:1"]) == [Extent(0, 4), Extent(4, 10), Extent(14, 5)]
    ensures Read("D1:2\nD1:1;D2:1\nD2:1\n", Extent(4, 10)) == "\nD1:1;D2:1"
  {
    var rs := ["D1:2", "D1:1;D2:1", "D2:1"];
    LayoutAt(rs, "\n", 0);
    LayoutAt(rs, "\n", 1);
    assert rs[..0] == [] && rs[..1] == ["D1:2"] && rs[..2] == ["D1:2", "D1:1;D2:1"];
    assert |Concat(rs[..1], "\n")| == 5;
    assert |Concat(rs[..2], "\n")| == 15;
    AsWrittenShift(rs, 0);
    AsWrittenAt(rs, 1);
    AsWrittenAt(rs, 2);
  }

}
