/**
 A flat index file as the sequence of characters written to it, and the
 offset tables that locate one record inside it: a record is written at the
 cursor, its (start, length) is noted, and an optional terminator follows.
 */
module FlatFile {
  import opened Dict

  /** Where one record sits in its file: `(ifcur, nfcur - ifcur)`. */
  datatype Extent = Extent(start: nat, length: nat)

  /** The file after writing each record in turn, each followed by `term`. */
  function Concat(rs: seq<string>, term: string): string
  {
    if |rs| == 0 then ""
    else Concat(rs[..|rs| - 1], term) + rs[|rs| - 1] + term
  }

  /** The extent noted for each record: the cursor before it and its own length. */
  function Layout(rs: seq<string>, term: string): (es: seq<Extent>)
    ensures |es| == |rs|
  {
    if |rs| == 0 then []
    else
      var init := rs[..|rs| - 1];
      Layout(init, term) + [Extent(|Concat(init, term)|, |rs[|rs| - 1]|)]
  }

  /**
   `f.seek(e.start); f.read1(e.length)`: the characters of the extent, cut
   short at the end of the file.
   */
  function Read(file: string, e: Extent): (r: string)
    ensures |r| <= e.length
    ensures e.start + e.length <= |file| ==> r == file[e.start..e.start + e.length]
  {
    var lo := if e.start <= |file| then e.start else |file|;
    var hi := if e.start + e.length <= |file| then e.start + e.length else |file|;
    file[lo..hi]
  }

  /** The table `t[ids[i]] = vals[i]` filled in order, a later id overriding an earlier one. */
  function Table<V>(ids: seq<string>, vals: seq<V>): (t: map<string, V>)
    requires |ids| == |vals|
    ensures t.Keys == Elems(ids)
  {
    if |ids| == 0 then map[]
    else
      var n := |ids| - 1;
      assert Elems(ids) == Elems(ids[..n]) + {ids[n]} by {
        assert ids == ids[..n] + [ids[n]];
      }
      Table(ids[..n], vals[..n])[ids[n] := vals[n]]
  }

  /** With distinct ids, each id's entry is the value written for it. */
  lemma {:induction false} TableAt<V>(ids: seq<string>, vals: seq<V>, i: nat)
    requires |ids| == |vals| && Distinct(ids)
    requires i < |ids|
    ensures ids[i] in Table(ids, vals) && Table(ids, vals)[ids[i]] == vals[i]
  {
    var n := |ids| - 1;
    if i < n {
      assert Distinct(ids[..n]);
      TableAt(ids[..n], vals[..n], i);
    }
  }

  /** Writing whole records in order: the concatenation of a prefix is a prefix of the file. */
  lemma {:induction false} ConcatPrefix(rs: seq<string>, term: string, j: nat)
    requires j <= |rs|
    ensures Concat(rs[..j], term) <= Concat(rs, term)
    ensures Layout(rs[..j], term) == Layout(rs, term)[..j]
  {
    if j < |rs| {
      var n := |rs| - 1;
      assert rs[..n][..j] == rs[..j];
      ConcatPrefix(rs[..n], term, j);
    } else {
      assert rs[..j] == rs;
    }
  }

  /**
   The extents are contiguous: the first starts at 0, each has its record's
   length, and the next starts right after it and its terminator; the last
   one ends where the file does.
   */
  lemma {:induction false} LayoutContiguous(rs: seq<string>, term: string)
    ensures |rs| > 0 ==> Layout(rs, term)[0].start == 0
    ensures forall k :: 0 <= k < |rs| ==> Layout(rs, term)[k].length == |rs[k]|
    ensures forall k :: 0 <= k < |rs| - 1 ==>
      Layout(rs, term)[k + 1].start == Layout(rs, term)[k].start + Layout(rs, term)[k].length + |term|
    ensures |rs| > 0 ==>
      |Concat(rs, term)| == Layout(rs, term)[|rs| - 1].start + |rs[|rs| - 1]| + |term|
  {
    if |rs| > 0 {
      var n := |rs| - 1;
      var init := rs[..n];
      LayoutContiguous(init, term);
      var L := Layout(rs, term);
      assert L[..n] == Layout(init, term);
      forall k | 0 <= k < n ensures L[k].length == |rs[k]| {
        assert L[k] == Layout(init, term)[k] && init[k] == rs[k];
      }
      if n > 0 {
        assert L[n - 1] == Layout(init, term)[n - 1] && init[n - 1] == rs[n - 1];
      }
    }
  }

  /** An extent inside a prefix of the file reads the same characters from the prefix. */
  lemma ReadPrefix(file: string, pre: string, e: Extent)
    requires pre <= file
    requires e.start + e.length <= |pre|
    ensures Read(file, e) == pre[e.start..e.start + e.length]
  {
  }

  /** The middle of three pieces put end to end. */
  lemma SliceMiddle(x: string, y: string, z: string)
    ensures (x + y + z)[|x|..|x| + |y|] == y
  {
  }

  /** Record k sits right after the first k records and their terminators. */
  lemma LayoutAt(rs: seq<string>, term: string, k: nat)
    requires k < |rs|
    ensures Layout(rs, term)[k] == Extent(|Concat(rs[..k], term)|, |rs[k]|)
    ensures Concat(rs[..k + 1], term) == Concat(rs[..k], term) + rs[k] + term
  {
    ConcatPrefix(rs, term, k + 1);
    var pre := rs[..k + 1];
    assert pre[..k] == rs[..k] && pre[k] == rs[k];
  }

  /** Reading a record back through its extent gives exactly the record written. */
  lemma {:induction false} ReadLayout(rs: seq<string>, term: string, k: nat)
    requires k < |rs|
    ensures Read(Concat(rs, term), Layout(rs, term)[k]) == rs[k]
  {
    ConcatPrefix(rs, term, k + 1);
    var pre := rs[..k + 1];
    assert pre[..k] == rs[..k] && pre[k] == rs[k];
    var c := Concat(pre, term);
    assert c == Concat(rs[..k], term) + rs[k] + term;
    assert Layout(pre, term)[k] == Extent(|Concat(rs[..k], term)|, |rs[k]|);
    var e := Layout(rs, term)[k];
    assert c[e.start..e.start + e.length] == rs[k];
  }
}
