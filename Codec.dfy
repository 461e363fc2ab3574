/**
 The flat text record of a term-frequency dict (`Index.writeDict` and
 `Index.readDict`): the items `k1:c1;k2:c2;...;kn:cn` in dict order, with no
 trailing separator, and the parse that turns such a record back into a dict.
 */
module Codec {
  import opened Wrappers
  import opened Dict
  import opened Text

  /** The items of a term -> count dict, in iteration order. */
  type Entries = seq<(string, nat)>

  /** A key the record format can carry: it holds neither separator. */
  predicate KeyOk(k: string)
  {
    ':' !in k && ';' !in k
  }

  predicate EntriesOk(es: Entries)
  {
    forall i :: 0 <= i < |es| ==> KeyOk(es[i].0)
  }

  /** One item, `w + ":" + str(n)`. */
  function Piece(e: (string, nat)): string
  {
    e.0 + ":" + NatToString(e.1)
  }

  function Pieces(es: Entries): (ps: seq<string>)
    ensures |ps| == |es|
  {
    seq(|es|, i requires 0 <= i < |es| => Piece(es[i]))
  }

  /** `writeDict`: the items joined by `;`. The record is empty exactly when the dict is. */
  function Encode(es: Entries): (r: string)
    ensures r == "" <==> |es| == 0
  {
    Join(Pieces(es), ';')
  }

  /** Where `readDict` gives up: the index of the `;`-separated piece it could not read. */
  datatype DecodeError =
    | NotAPair(piece: nat)   // the piece does not split on ':' into exactly two fields
    | NotACount(piece: nat)  // the second field is not a decimal count

  /**
   A piece `readDict` can read: it holds exactly one `:`, and the text after
   it is a non-empty run of decimal digits.
   */
  predicate PieceOk(p: string)
  {
    Count(p, ':') == 1 && |After(p, ':')| >= 1 && AllDigits(After(p, ':'))
  }

  /**
   `w, n = s.split(':')` followed by `int(n)`, for the piece at position
   `at`. It succeeds exactly on a readable piece, giving the text before the
   `:` and the count after it. Otherwise the unpacking fails when the piece
   does not hold exactly one `:`, and `int` fails on the count field.
   */
  function DecodePiece(p: string, at: nat): (r: Result<(string, nat), DecodeError>)
    ensures r.Ok? <==> PieceOk(p)
    ensures r.Ok? ==> r.value == (Before(p, ':'), DigitsValue(After(p, ':')))
    ensures r.Ok? ==> ':' !in r.value.0 && (';' !in p ==> KeyOk(r.value.0))
    ensures r.Err? ==> r.error.piece == at && (r.error.NotAPair? <==> Count(p, ':') != 1)
  {
    var fields := Split(p, ':');
    SplitShape(p, ':');
    if |fields| != 2 then Err(NotAPair(at))
    else
      SplitShape(After(p, ':'), ':');
      match ParseNat(fields[1])
      case None => Err(NotACount(at))
      case Some(n) =>
        SplitSubstrings(p, ':');
        Ok((fields[0], n))
  }

  /**
   Decodes the pieces from position `at` on, stopping at the first piece that
   fails: it succeeds exactly when every piece is readable, and otherwise
   reports the first unreadable one.
   */
  function DecodePieces(ps: seq<string>, at: nat): (r: Result<Entries, DecodeError>)
    requires forall i :: 0 <= i < |ps| ==> ';' !in ps[i]
    ensures r.Ok? <==> forall i :: 0 <= i < |ps| ==> PieceOk(ps[i])
    ensures r.Ok? ==> |r.value| == |ps| && EntriesOk(r.value)
    ensures r.Err? ==> at <= r.error.piece < at + |ps|
    ensures r.Err? ==> !PieceOk(ps[r.error.piece - at]) && forall i :: 0 <= i < r.error.piece - at ==> PieceOk(ps[i])
  {
    if |ps| == 0 then Ok([])
    else match DecodePiece(ps[0], at)
      case Err(e) => Err(e)
      case Ok(e) =>
        match DecodePieces(ps[1..], at + 1)
        case Err(e') =>
          assert forall i :: 0 <= i < e'.piece - (at + 1) ==> ps[1..][i] == ps[i + 1];
          Err(e')
        case Ok(rest) =>
          assert forall i :: 1 <= i < |ps| ==> ps[i] == ps[1..][i - 1];
          Ok([e] + rest)
  }

  /**
   `readDict`: split the record on `;`, each piece on `:`, and build the dict
   left to right (a repeated key keeps its last count). It fails exactly when
   some piece is unreadable, and then names the first such piece; nothing is
   dropped. Every decoded key is one the format can carry. An empty record
   fails on its one empty piece.
   */
  function Decode(s: string): (r: Result<map<string, nat>, DecodeError>)
    ensures r.Err? <==> exists i :: 0 <= i < |Split(s, ';')| && !PieceOk(Split(s, ';')[i])
    ensures r.Err? ==> r.error.piece < |Split(s, ';')| && !PieceOk(Split(s, ';')[r.error.piece])
    ensures r.Err? ==> forall i :: 0 <= i < r.error.piece ==> PieceOk(Split(s, ';')[i])
    ensures r.Ok? ==> forall k :: k in r.value ==> KeyOk(k)
    ensures s == "" ==> r == Err(NotAPair(0))
  {
    match DecodePieces(Split(s, ';'), 0)
    case Err(e) =>
      assert !PieceOk(Split(s, ';')[e.piece]);
      Err(e)
    case Ok(es) =>
      forall k | k in AsMap(es) ensures KeyOk(k) {
        AsMapHas(es, k);
      }
      Ok(AsMap(es))
  }

  /** `readDict("a:1;b:x")` fails on the second piece, whose count is not a number; `a` is not kept. */
  lemma DecodeExample()
    ensures Decode("a:1;b:x") == Err(NotACount(1))
  {
    ExampleSplit();
    ExamplePieces();
  }

  lemma ExampleSplit()
    ensures Split("a:1;b:x", ';') == ["a:1", "b:x"]
  {
    var s := "a:1;b:x";
    assert s[1..] == ":1;b:x" && s[1..][1..] == "1;b:x" && s[1..][1..][1..] == ";b:x";
    assert Before(s, ';') == "a:1" && After(s, ';') == "b:x" && Count(s, ';') == 1;
    SplitShape(s, ';');
    var t := "b:x";
    assert t[1..] == ":x" && t[1..][1..] == "x" && t[1..][1..][1..] == "";
    assert Count(t, ';') == 0;
    SplitShape(t, ';');
  }

  lemma ExamplePieces()
    ensures DecodePiece("a:1", 0).Ok? && DecodePiece("b:x", 1) == Err(NotACount(1))
  {
    var a, t := "a:1", "b:x";
    assert a[1..] == ":1" && a[1..][1..] == "1" && a[1..][1..][1..] == "";
    assert Count(a, ':') == 1 && After(a, ':') == "1" && AllDigits("1");
    assert t[1..] == ":x" && t[1..][1..] == "x" && t[1..][1..][1..] == "";
    assert Count(t, ':') == 1 && After(t, ':') == "x" && !IsDigit('x');
  }

  // ---- helper facts about the two-level split ----

  /** Every piece of a split is made of characters of the text split. */
  lemma {:induction false} SplitSubstrings(s: string, sep: char)
    ensures forall i, c :: 0 <= i < |Split(s, sep)| && c in Split(s, sep)[i] ==> c in s
  {
    if |s| > 0 {
      var rest := Split(s[1..], sep);
      SplitSubstrings(s[1..], sep);
      forall i, c | 0 <= i < |Split(s, sep)| && c in Split(s, sep)[i] ensures c in s {
        if s[0] != sep && i == 0 {
          assert c == s[0] || c in rest[0];
        } else if s[0] != sep {
          assert Split(s, sep)[i] == rest[i];
        } else if i > 0 {
          assert Split(s, sep)[i] == rest[i - 1];
        }
        assert c in s[1..] || c == s[0];
      }
    }
  }

  // ---- properties of the record format ----

  lemma PieceShape(e: (string, nat))
    requires KeyOk(e.0)
    ensures ';' !in Piece(e)
    ensures Count(Piece(e), ':') == 1
    ensures IsDigit(Piece(e)[|Piece(e)| - 1])
  {
    var d := NatToString(e.1);
    assert ':' !in d && ';' !in d by {
      forall i | 0 <= i < |d| ensures d[i] != ':' && d[i] != ';' { assert IsDigit(d[i]); }
    }
    assert Piece(e) == e.0 + (":" + d);
    CountAppend(e.0, ":" + d, ':');
    CountAppend(":", d, ':');
    CountAbsent(e.0, ':');
    CountAbsent(d, ':');
  }

  lemma DecodePieceOf(e: (string, nat), at: nat)
    requires KeyOk(e.0)
    ensures DecodePiece(Piece(e), at) == Ok(e)
  {
    var d := NatToString(e.1);
    assert ':' !in d by {
      forall i | 0 <= i < |d| ensures d[i] != ':' { assert IsDigit(d[i]); }
    }
    assert Piece(e) == e.0 + (":" + d);
    SplitPrefix(e.0, ":" + d, ':');
    SplitPrefix(d, "", ':');
    assert d + "" == d;
    assert (":" + d)[1..] == d;
    assert Split(":" + d, ':') == [""] + [d];
    assert e.0 + "" == e.0;
    assert Split(Piece(e), ':') == [e.0, d];
    ParseNatToString(e.1);
  }

  lemma {:induction false} DecodePiecesOfPieces(es: Entries, at: nat)
    requires EntriesOk(es)
    ensures forall i :: 0 <= i < |es| ==> ';' !in Pieces(es)[i]
    ensures DecodePieces(Pieces(es), at) == Ok(es)
  {
    forall i | 0 <= i < |es| ensures ';' !in Pieces(es)[i] { PieceShape(es[i]); }
    if |es| > 0 {
      DecodePieceOf(es[0], at);
      assert Pieces(es)[1..] == Pieces(es[1..]);
      DecodePiecesOfPieces(es[1..], at + 1);
      assert [es[0]] + es[1..] == es;
    }
  }

  /**
   Round trip: `readDict(writeDict(d))` is `d` for every non-empty dict whose
   keys hold neither separator.
   */
  lemma {:induction false} DecodeEncode(es: Entries)
    requires |es| >= 1
    requires EntriesOk(es)
    ensures Decode(Encode(es)) == Ok(AsMap(es))
  {
    DecodePiecesOfPieces(es, 0);
    SplitJoin(Pieces(es), ';');
  }

  /**
   The record of a non-empty dict holds exactly one `:` per item and n - 1
   `;` separators, and ends in a digit of the last count (no trailing `;`).
   */
  lemma {:induction false} EncodeSeparators(es: Entries)
    requires |es| >= 1
    requires EntriesOk(es)
    ensures Count(Encode(es), ':') == |es|
    ensures Count(Encode(es), ';') == |es| - 1
    ensures IsDigit(Encode(es)[|Encode(es)| - 1])
  {
    var ps := Pieces(es);
    PieceShape(es[0]);
    CountAbsent(ps[0], ';');
    if |es| >= 2 {
      assert ps[1..] == Pieces(es[1..]);
      EncodeSeparators(es[1..]);
      var rest := Encode(es[1..]);
      assert Encode(es) == ps[0] + ([';'] + rest);
      CountAppend(ps[0], [';'] + rest, ':');
      CountAppend(ps[0], [';'] + rest, ';');
      CountAppend([';'], rest, ':');
      CountAppend([';'], rest, ';');
    }
  }
}
