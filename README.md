# Two-sided text index: a Dafny model

This project models the core of a small information-retrieval library. The
`Index` class builds two flat text files over a corpus. The forward index
maps each document to its stem -> term-frequency dict. The inverted index maps
each stem to its document -> term-frequency dict. In-memory offset tables
(`docs`, `stems`) record where each record sits in its file. A `Weighter`
reads weight vectors for a document, a stem or a query off the index, and
`IRmodel.getRanking` is meant to sort scored documents by score.

Modules, leaf first:

- `Wrappers`: `Option` and `Result`, standing in for `None` and for raised exceptions.
- `Dict`: a Python dict as the ordered sequence of its items. `AsMap` is the mapping a dict comprehension builds from them.
- `Text`: `str.split`, `str.join`, `str(n)` and `int(s)` on the characters the record format uses.
- `Codec`: `Index.writeDict` / `Index.readDict`, the `k1:c1;...;kn:cn` record format.
- `FlatFile`: a file as the characters written to it, record extents `(start, length)`, and `seek` + `read1` as `Read`.
- `IndexSpec`: what `indexDirect`, `indexInversed` (in its intended single-pass form) and the two readers compute, as functions of the document sequence the parser yields.
- `Index`: the `Index` class itself. Its map fields and two file contents are updated in place by `IndexDirect`, `IndexInversed` and `Indexation`, and each method is proved to leave exactly the state the `IndexSpec` function gives.
- `IndexLemmas`: properties of a built index. Offsets are contiguous, records read back as the dicts written, the tables have the expected key sets, and the inverted index agrees with the forward one.
- `Offsets`: the extents `indexInversed` notes as its code is written. Each extent after the first is off by one (see Findings).
- `Weighter`: `getDocWeightsForDoc`, `getDocWeightsForStem`, `getWeightsForQuery`.
- `Ranking`: `IRmodel.getRanking` as a stable sort by descending score.

The parser and the text representer are outside the model. A corpus is the
sequence of `Doc(id, tf, from)` values they would hand over: the document id,
the items of its term-frequency dict, and its raw `from` field. A query is the
items of the dict the text representer gives for it. `getScores` is abstract
in the source and its result is a parameter of `GetRanking`.

The model follows the code on three points a reader might expect otherwise:

- The forward file has no terminator after each record (Index.py:96 writes the record alone). The inverted file has a newline after each record (Index.py:137).
- Equal scores are ranked in `getScores` order, because Python's sort is stable (IRmodel.py:47). They are not ordered by document id.
- An empty dict encodes to the empty record. `readDict` cannot parse that record (`''.split(';')` gives one piece with no `:`). So a document whose dict is empty, or a stem no document holds with a positive count, reads back as a decode error, not as an empty dict.

## Model

| member | source | states |
|---|---|---|
| `Text.Split` | Index.py:68 | `s.split(sep)` yields at least one piece, and no piece contains the separator |
| `Text.JoinCount` | Index.py:51 | `';'.join` of one or more separator-free pieces puts exactly one separator between neighbours: n - 1 in all |
| `Text.SplitShape` | Index.py:68 | `s.split(sep)` has one piece more than `s` has separators; its first piece is the text before the first separator, the rest the split of the text after it |
| `Text.SplitJoin` | Index.py:51 | splitting a `sep.join` of one or more separator-free pieces gives back those pieces |
| `Text.NatToString` | Index.py:51 | `str(n)` is a non-empty run of decimal digits with no leading zero unless n is 0 |
| `Text.ParseNat` | Index.py:68 | `int(s)` succeeds exactly on non-empty all-digit fields |
| `Text.ParseNatToString` | Index.py:51 | `int(str(n)) == n` for every natural n |
| `Dict.AsMap` | Index.py:68 | the dict a comprehension builds from items has exactly the items' keys |
| `Dict.AsMapMember` | Index.py:68 | with distinct keys, an item is present exactly when the dict maps its key to its value |
| `Codec.Encode` | Index.py:51 | `writeDict` gives the empty record exactly for the empty dict |
| `Codec.DecodePiece` | Index.py:68 | `w, n = p.split(':')` and `int(n)` succeed exactly when the piece has one `:` followed by a non-empty digit run, giving the text before it and the count; a wrong number of `:` is `NotAPair`, a bad count `NotACount`, both naming the piece |
| `Codec.DecodePieces` | Index.py:68 | the comprehension succeeds exactly when every piece is readable, giving one item per piece with separator-free keys; otherwise it reports the first unreadable piece |
| `Codec.Decode` | Index.py:68 | `readDict` fails exactly when some `;`-piece of the record is unreadable, and then names the first such piece, never returning a partial dict; otherwise the keys are separator-free; the empty record fails on its first piece |
| `Codec.DecodeExample` | Index.py:68 | `readDict("a:1;b:x")` is a bad-count error on the second piece, not a dict holding `a` |
| `Codec.DecodeEncode` | Index.py:51-68 | `readDict(writeDict(d)) == d` for every non-empty dict whose keys hold neither `:` nor `;` |
| `Codec.EncodeSeparators` | Index.py:51 | a record of n items holds exactly n `:` and n - 1 `;`, and ends in a digit (no trailing separator) |
| `FlatFile.Read` | Index.py:156-158 | `seek(start); read1(length)` gives at most `length` characters, exactly the slice when the extent fits in the file |
| `FlatFile.Table` | Index.py:98 | a table filled id by id has exactly those ids as keys |
| `FlatFile.TableAt` | Index.py:98 | with distinct ids, each id maps to the value written for it |
| `FlatFile.LayoutContiguous` | Index.py:97-109 | extents start at 0, have their records' lengths, and each next one starts right after the previous record and its terminator |
| `FlatFile.ReadLayout` | Index.py:156-158 | reading record k through its extent gives exactly record k |
| `IndexSpec.Empty` | Index.py:23-28 | a fresh index has empty tables and satisfies the `stems` order invariant |
| `IndexSpec.FromTable` | Index.py:101-102 | `docFrom[id] = d.get("from").split(";")` for each document leaves exactly the corpus ids as keys |
| `IndexSpec.TermsOfHas` | Index.py:105-106 | a stem is in the corpus vocabulary exactly when some document's dict has it as a key |
| `IndexSpec.AppendNew` | Index.py:105-106 | `stems[s] = None` for each key keeps the insertion order duplicate-free, appends only new keys, and leaves earlier keys in place |
| `IndexSpec.VocabOrder` | Index.py:89-110 | after the forward pass the stem order lists the earlier stems plus every corpus term, once each |
| `IndexSpec.ForwardPass` | Index.py:80-110 | `indexDirect` adds every document id to `docs` and every term to `stems`, keeps the stem order valid, and leaves the inverted file alone |
| `IndexSpec.InvertPass` | Index.py:117-141 | the intended `indexInversed` gives every vocabulary stem its extent and changes nothing but the inverted file and `stems` |
| `IndexSpec.Build` | Index.py:71-77 | `indexation` keeps the stem-order invariant |
| `IndexSpec.GetTfsForDoc` | Index.py:156-158 | an unknown document is a `KeyError` (and only then), never an empty dict; decoded keys are separator-free |
| `IndexSpec.GetTfsForStem` | Index.py:174-180 | an unknown stem gives the empty dict; a stem not yet inverted is an error; a non-empty answer means the stem is known |
| `Index.Index.constructor` | Index.py:23-28 | `__init__` leaves empty tables and no file content |
| `Index.Index.IndexDirect` | Index.py:85-110 | the loop over documents leaves exactly the `ForwardPass` state and keeps the stem-order invariant |
| `Index.Index.IndexDoc` | Index.py:92-109 | one document: its record is appended at the cursor, its extent runs from the old cursor to the new one, which is returned |
| `Index.Index.AddStems` | Index.py:105-106 | each term is set to None in `stems` and joins the order if new |
| `Index.Index.IndexInversed` | Index.py:117-141 | the single pass plus the writing loop leave exactly the `InvertPass` state |
| `Index.Index.WriteRecords` | Index.py:117-141 | the writing loop truncates the inverted file and writes each stem's accumulated postings in `stems` order, leaving exactly the `InvertPass` state |
| `Index.Index.WriteStem` | Index.py:134-141 | one stem: its record and a newline are appended, its extent starts at the old cursor and excludes the newline |
| `Index.Index.Indexation` | Index.py:71-77 | `indexation` leaves exactly the `Build` state |
| `Index.Accumulate` | Index.py:120-132 | one pass over the documents fills each stem's accumulator with exactly its postings, in document order |
| `Index.AccumulateDoc` | Index.py:124-130 | one document adds `(id, c)` to each stem it holds with count c > 0, and nothing else |
| `IndexLemmas.DocOffsetsContiguous` | Index.py:86-109 | forward extents: the first starts at 0, each has its record's length, each next starts where the previous ends, and the last ends at the end of the file |
| `IndexLemmas.DocRecordRoundTrip` | Index.py:96-98 | after `indexation`, a document's extent covers exactly its record, and `getTfsForDoc` returns the dict the text representer gave (a decode error for an empty dict) |
| `IndexLemmas.PostingsHas` | Index.py:120-129 | stem s's accumulator holds `(d, c)` exactly when document d's dict has `s -> c` with c > 0 |
| `IndexLemmas.PostingsDistinct` | Index.py:120-129 | with unique ids and unique keys per document, no document is listed twice for a stem |
| `IndexLemmas.StemRecordRoundTrip` | Index.py:174-177 | after the inverted pass, `getTfsForStem(s)` decodes exactly s's postings (a decode error when there are none) |
| `IndexLemmas.BuildKeys` | Index.py:98-106 | on a fresh index, `docs` keys are the corpus ids, `stems` keys and order are the corpus terms, and every stem has an extent |
| `IndexLemmas.StemEntryIsInDoc` | Index.py:120-129 | a document listed in a stem's record holds that stem in its forward record with the same positive count |
| `IndexLemmas.DocEntryIsInStem` | Index.py:120-129 | a positive count in a document's forward record appears in the stem's inverted record |
| `IndexLemmas.ForwardInvertedConsistent` | Index.py:120-129 | `getTfsForStem(s)` lists `d -> c` exactly when `getTfsForDoc(d)` has `s -> c` and c > 0 |
| `Offsets.AsWrittenExtents` | Index.py:135-141 | the loop as written notes exactly one extent per record it writes (their positions are stated by `Offsets.AsWrittenAt`) |
| `Offsets.AsWrittenAt` | Index.py:135-141 | extent k >= 1 starts at the end of record k - 1, before its newline, and ends at the end of record k |
| `Offsets.InvertPassAsWritten` | Index.py:134-141 | with the as-written extents, the inverted file is unchanged and every vocabulary stem still gets an entry |
| `Offsets.AsWrittenShift` | Index.py:136-141 | the as-written extent of every record after the first starts one character early and is one character longer than its record |
| `Offsets.AsWrittenRead` | Index.py:136-141 | reading back through an as-written extent gives a newline followed by the record, except for the first |
| `Offsets.DecodeAfterNewline` | Index.py:68 | `readDict` of a newline plus a record glues the newline onto the first key and decodes the rest unchanged |
| `Offsets.AsWrittenLosesFirstDocument` | Index.py:136-141 | as written, `getTfsForStem` on any stem after the first returns its first document under a newline-prefixed id, and not under its own id |
| `Offsets.AsWrittenExample` | Index.py:136-141 | records `D1:2`, `D1:1;D2:1`, `D2:1` get extents (0,4), (4,10), (14,5), and (4,10) reads `\nD1:1;D2:1` |
| `Weighter.GetDocWeightsForDoc` | Weighter.py:29 | document weights are `getTfsForDoc`'s answer, including its error for an unknown id |
| `Weighter.GetDocWeightsForStem` | Weighter.py:39 | stem weights are `getTfsForStem`'s answer, including the empty dict for an unseen stem |
| `Weighter.Zeros` | Weighter.py:49 | `dict.fromkeys(stems, 0)` has exactly the vocabulary as keys, each mapped to 0 |
| `Weighter.GetWeightsForQuery` | Weighter.py:49-50 | the keys are the vocabulary plus the query's terms; each query term carries its query count; every other stem weighs 0 |
| `Weighter.DocWeightsAfterBuild` | Weighter.py:29 | after `indexation`, a document's weights are its own tf dict, and an id outside the corpus is an error |
| `Weighter.StemWeightsAfterBuild` | Weighter.py:39 | after `indexation`, an unseen stem weighs nothing (empty dict) and a seen stem gets its postings |
| `Weighter.QueryKeysAfterBuild` | Weighter.py:49-50 | after `indexation`, query weights have one key per corpus term plus one per out-of-vocabulary query term |
| `Weighter.QueryExample` | Weighter.py:49-50 | query "dog cat fox" over {cat, dog, bird} gives cat 1, dog 1, bird 0, and keeps fox with 1 |
| `Ranking.Insert` | IRmodel.py:47 | one more item in a ranked list: same items plus it, one longer |
| `Ranking.GetRanking` | IRmodel.py:47 | the ranking is a permutation of the scored items (same multiset, same length) with scores non-increasing |
| `Ranking.RankingStable` | IRmodel.py:47 | items with equal scores keep the order `getScores` listed them in, as a stable sort does |
| `Ranking.RankingScores` | IRmodel.py:47 | each ranked pair carries its document's score, and every scored document is ranked |
| `Ranking.RankingExample` | IRmodel.py:47 | D1 0.5, D2 2.0, D3 0.5 rank as D2, D1, D3 |

## Left out

- File handles, `open`, `seek`, `tell`, `read1` and the `str`/`bytes` encoding: each file is the sequence of characters written to it. A record is text, so `encode`/`decode` are the identity here.
- A file not yet written is modelled as empty. Both readers call `open` before looking up the table, and in `getTfsForStem` the `open` sits outside the `try` (Index.py:156, Index.py:174-175). So before `indexation` has written the files, they raise `FileNotFoundError`, even `getTfsForStem` on an unknown stem. The model does not capture that error: `IndexSpec.GetTfsForStem` gives the empty dict there.
- The parser (`nextDocument`, `getId`, `getText`, `get("from")`) and the text representer (`getTextRepresentation`): a corpus is the sequence of documents they would produce, and a query is its term-frequency items.
- `getStrDoc` (Index.py:182-196): raw pass-through I/O, and it reads `self.docFrom[0]` instead of `self.docFrom[doc]`. The `docFrom` table is stored only as the split `from` field.
- The literal statements of `indexInversed` that cannot run: the undefined `t` and `p`, the `str + int` concatenation, writing `str` to a binary file, `seek(-1, 1)`, and re-reading the exhausted parser once per stem. The model builds the intended single pass. Only the as-written offset rule is modelled, separately, in `Offsets`.
- The `Weighter` reads `index.textRepresenter` (Weighter.py:50) while `Index` stores `textRep` (Index.py:28), so `getWeightsForQuery` as written raises `AttributeError`. The model takes the query's term-frequency items as given.
- `Text.ParseNat`: accepts only non-empty runs of decimal digits. Python's `int()` also accepts a sign, surrounding whitespace and `_` between digits. Those forms never come out of `writeDict`, so the round trip is unaffected.
- `Ranking.GetRanking`: `getScores` and `getRanking` are declared without `self` (IRmodel.py:30, IRmodel.py:40) although `getRanking` uses `self` (IRmodel.py:47), so as written `model.getRanking(q)` raises `TypeError`. The model gives the ranking the method evidently means to return.
- `Ranking.GetRanking`: scores are exact reals, not floating-point numbers, so NaN and signed zeros are not modelled.
- `IRmodel.getScores` (IRmodel.py:30-37) returns `NotImplementedError`. Its result is a parameter of `GetRanking`.
- The module-level logging setup (IRmodel.py:3-10), `time`, and main.py: `pickle` persistence and process wiring.
- Concurrency and crash recovery: the source has none.

## Findings

| source | as written | input that shows it | evidently intended | confidence | as-written member | corrected member |
|---|---|---|---|---|---|---|
| Index.py:134-141 | `nfcur` is taken before the `"\n"` is written, and `ifcur = nfcur` then starts the next stem's extent on that newline, one character early and one character longer than its record | two documents D1 = {cat: 2, dog: 1} and D2 = {dog: 1, bird: 1}: records `D1:2`, `D1:1;D2:1`, `D2:1`; stem `dog` gets extent (4, 10), which reads `\nD1:1;D2:1`, so `getTfsForStem("dog")` has key `"\nD1"` and no `D1` | each extent starts at the cursor after the previous record's newline, so each record reads back as written | not executed | `Offsets.AsWrittenLosesFirstDocument` | `IndexLemmas.StemRecordRoundTrip` |
