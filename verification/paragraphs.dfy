/** split.py: a document's text cut into paragraphs at blank lines, and the
    numbered chunk rows written for each document. */
module Paragraphs {
  import opened Text

  /** What separates paragraphs. */
  const Separator: string := "\n\n"

  /** The pieces stripped, the empty ones dropped, in order. */
  function NonEmptyStripped(pieces: seq<string>): (ps: seq<string>)
    ensures |ps| <= |pieces|
  {
    if pieces == [] then []
    else
      var p := Strip(pieces[0], Spaces);
      var rest := NonEmptyStripped(pieces[1..]);
      if p == [] then rest else [p] + rest
  }

  /** split_text_by_paragraphs: the text split at "\n\n", each piece
      stripped, the empty ones dropped. */
  function SplitParagraphs(text: string): seq<string> {
    NonEmptyStripped(SplitOn(text, Separator))
  }

  /** Each paragraph is a non-empty piece, stripped. */
  lemma {:induction false} NonEmptyStrippedSound(pieces: seq<string>, p: string)
    requires p in NonEmptyStripped(pieces)
    ensures p != [] && exists k :: 0 <= k < |pieces| && p == Strip(pieces[k], Spaces)
    decreases |pieces|
  {
    var head := Strip(pieces[0], Spaces);
    if p != head || head == [] {
      NonEmptyStrippedSound(pieces[1..], p);
      var k :| 0 <= k < |pieces| - 1 && p == Strip(pieces[1..][k], Spaces);
      assert pieces[1..][k] == pieces[k + 1];
    }
  }

  /** Each piece that is not blank gives a paragraph. */
  lemma {:induction false} NonEmptyStrippedComplete(pieces: seq<string>, k: nat)
    requires k < |pieces| && Strip(pieces[k], Spaces) != []
    ensures Strip(pieces[k], Spaces) in NonEmptyStripped(pieces)
    decreases |pieces|
  {
    if k > 0 {
      NonEmptyStrippedComplete(pieces[1..], k - 1);
      assert pieces[1..][k - 1] == pieces[k];
    }
  }

  /** The paragraphs come in the order of their pieces. */
  lemma {:induction false} NonEmptyStrippedInOrder(pieces: seq<string>)
    ensures IsSubseq(NonEmptyStripped(pieces), StripEach(pieces))
    decreases |pieces|
  {
    if pieces != [] {
      var all := StripEach(pieces);
      var ps := NonEmptyStripped(pieces);
      var rest := NonEmptyStripped(pieces[1..]);
      NonEmptyStrippedInOrder(pieces[1..]);
      assert all[1..] == StripEach(pieces[1..]);
      if Strip(pieces[0], Spaces) != [] {
        assert ps[0] == all[0] && ps[1..] == rest;
      }
    }
  }

  /** One paragraph per non-blank piece: each stripped piece is kept as
      often as it occurs, the empty ones never. With the order above this
      fixes the paragraphs exactly. */
  lemma {:induction false} NonEmptyStrippedCounts(pieces: seq<string>)
    ensures forall x :: multiset(NonEmptyStripped(pieces))[x]
                     == if x == [] then 0 else multiset(StripEach(pieces))[x]
    decreases |pieces|
  {
    if pieces != [] {
      NonEmptyStrippedCounts(pieces[1..]);
      var p := Strip(pieces[0], Spaces);
      assert StripEach(pieces) == [p] + StripEach(pieces[1..]);
      if p == [] {
        assert NonEmptyStripped(pieces) == NonEmptyStripped(pieces[1..]);
      } else {
        assert NonEmptyStripped(pieces) == [p] + NonEmptyStripped(pieces[1..]);
      }
    }
  }

  /** Stripping a piece without "\n\n" gives a stripped text without it. */
  lemma {:induction false} StrippedPieceShape(piece: string)
    requires !Contains(piece, Separator)
    ensures Strip(Strip(piece, Spaces), Spaces) == Strip(piece, Spaces)
    ensures !Contains(Strip(piece, Spaces), Separator)
  {
    StripIdempotent(piece, Spaces);
    StripSlice(piece, Spaces);
    var a := SpanIn(piece, Spaces);
    NotContainsSlice(piece, a, a + |Strip(piece, Spaces)|, Separator);
  }

  /** Every paragraph is non-empty, has no whitespace at either end and
      holds no "\n\n". */
  lemma {:induction false} ParagraphShape(text: string, p: string)
    requires p in SplitParagraphs(text)
    ensures p != [] && Strip(p, Spaces) == p && !Contains(p, Separator)
  {
    var pieces := SplitOn(text, Separator);
    NonEmptyStrippedSound(pieces, p);
    var k :| 0 <= k < |pieces| && p == Strip(pieces[k], Spaces);
    StrippedPieceShape(pieces[k]);
  }

  /** At most one paragraph per "\n\n" plus one; the paragraphs are the
      stripped pieces in order, each non-blank piece counted once. */
  lemma {:induction false} ParagraphCount(text: string)
    ensures |SplitParagraphs(text)| <= Occurrences(text, Separator) + 1
    ensures IsSubseq(SplitParagraphs(text), StripEach(SplitOn(text, Separator)))
    ensures forall x :: multiset(SplitParagraphs(text))[x]
                     == if x == [] then 0 else multiset(StripEach(SplitOn(text, Separator)))[x]
  {
    SplitOnCount(text, Separator);
    NonEmptyStrippedInOrder(SplitOn(text, Separator));
    NonEmptyStrippedCounts(SplitOn(text, Separator));
  }

  /** A blank text has no non-blank piece. */
  lemma {:induction false} BlankPiecesOnly(pieces: seq<string>, text: string)
    requires Join(pieces, Separator) == text && NonEmptyStripped(pieces) != []
    ensures !AllSpace(text)
  {
    var p := NonEmptyStripped(pieces)[0];
    NonEmptyStrippedSound(pieces, p);
    var k :| 0 <= k < |pieces| && p == Strip(pieces[k], Spaces);
    StripEnds(pieces[k], Spaces);
    var i :| 0 <= i < |pieces[k]| && !IsSpace(pieces[k][i]);
    JoinHasItem(pieces, Separator, k);
    var c := pieces[k][i];
    assert c in text;
    var j :| 0 <= j < |text| && text[j] == c;
  }

  /** A visible character lies in a piece, which gives a paragraph. */
  lemma {:induction false} VisiblePieceKept(pieces: seq<string>, text: string)
    requires Join(pieces, Separator) == text && !AllSpace(text)
    ensures NonEmptyStripped(pieces) != []
  {
    var j :| 0 <= j < |text| && !IsSpace(text[j]);
    var c := text[j];
    JoinFromItems(pieces, Separator, c);
    assert IsSpace('\n') && Separator == ['\n', '\n'];
    var k :| 0 <= k < |pieces| && c in pieces[k];
    var i :| 0 <= i < |pieces[k]| && pieces[k][i] == c;
    StripEnds(pieces[k], Spaces);
    NonEmptyStrippedComplete(pieces, k);
  }

  /** There are no paragraphs exactly when the text is empty or all
      whitespace. */
  lemma {:induction false} NoParagraphsIffBlank(text: string)
    ensures SplitParagraphs(text) == [] <==> AllSpace(text)
  {
    var pieces := SplitOn(text, Separator);
    if SplitParagraphs(text) != [] {
      BlankPiecesOnly(pieces, text);
    }
    if !AllSpace(text) {
      VisiblePieceKept(pieces, text);
    }
  }

  /** A document: its file name and its cleaned content. */
  datatype Document = Document(fileName: string, content: string)

  /** One row of the split table. */
  datatype ChunkRow = ChunkRow(originalFile: string, chunkId: nat, chunkContent: string)

  /** The rows of one document: its paragraphs numbered from 0 in order. */
  function FileRows(fileName: string, chunks: seq<string>): (rows: seq<ChunkRow>)
    ensures |rows| == |chunks|
    ensures forall i :: 0 <= i < |rows| ==> rows[i] == ChunkRow(fileName, i, chunks[i])
  {
    seq(|chunks|, i requires 0 <= i < |chunks| => ChunkRow(fileName, i, chunks[i]))
  }

  /** The rows of one document. */
  function DocRows(d: Document): seq<ChunkRow> {
    FileRows(d.fileName, SplitParagraphs(d.content))
  }

  /** The rows of all documents, document after document, each giving
      `rowsOf` rows. */
  function AllRows(docs: seq<Document>, rowsOf: Document -> seq<ChunkRow>): seq<ChunkRow> {
    if docs == [] then [] else AllRows(docs[..|docs| - 1], rowsOf) + rowsOf(docs[|docs| - 1])
  }

  /** Numbering one more paragraph appends one row. */
  lemma {:induction false} FileRowsSnoc(fileName: string, chunks: seq<string>, i: nat)
    requires i < |chunks|
    ensures FileRows(fileName, chunks[..i + 1]) == FileRows(fileName, chunks[..i]) + [ChunkRow(fileName, i, chunks[i])]
  {
    var a := FileRows(fileName, chunks[..i + 1]);
    var b := FileRows(fileName, chunks[..i]) + [ChunkRow(fileName, i, chunks[i])];
    assert |a| == |b|;
    forall k | 0 <= k < |a| ensures a[k] == b[k] {
      assert chunks[..i + 1][k] == chunks[k];
    }
  }

  /** The inner loop of main: one row per paragraph of one document,
      appended to the table. */
  method AppendChunks(splitData: seq<ChunkRow>, fileName: string, chunks: seq<string>) returns (rows: seq<ChunkRow>)
    ensures rows == splitData + FileRows(fileName, chunks)
  {
    rows := splitData;
    for i := 0 to |chunks|
      invariant rows == splitData + FileRows(fileName, chunks[..i])
    {
      rows := rows + [ChunkRow(fileName, i, chunks[i])];
      FileRowsSnoc(fileName, chunks, i);
    }
    assert chunks[..|chunks|] == chunks;
  }

  /** The loop of main over the documents. */
  method SplitDocuments(docs: seq<Document>) returns (splitData: seq<ChunkRow>)
    ensures splitData == AllRows(docs, DocRows)
  {
    splitData := [];
    for d := 0 to |docs|
      invariant splitData == AllRows(docs[..d], DocRows)
    {
      var chunks := SplitParagraphs(docs[d].content);
      splitData := AppendChunks(splitData, docs[d].fileName, chunks);
      assert docs[..d + 1][..d] == docs[..d];
    }
    assert docs[..|docs|] == docs;
  }

  /** The rows of the first documents open the rows of all of them. */
  lemma {:induction false} AllRowsPrefix(docs: seq<Document>, rowsOf: Document -> seq<ChunkRow>, e: nat)
    requires e <= |docs|
    ensures |AllRows(docs[..e], rowsOf)| <= |AllRows(docs, rowsOf)|
    ensures AllRows(docs, rowsOf)[..|AllRows(docs[..e], rowsOf)|] == AllRows(docs[..e], rowsOf)
    decreases |docs|
  {
    if e == |docs| {
      assert docs[..e] == docs;
    } else {
      var n := |docs| - 1;
      AllRowsPrefix(docs[..n], rowsOf, e);
      assert docs[..n][..e] == docs[..e];
      var front := AllRows(docs[..n], rowsOf);
      assert AllRows(docs, rowsOf) == front + rowsOf(docs[n]);
      assert AllRows(docs, rowsOf)[..|front|] == front;
    }
  }

  /** The rows of document `d` follow the rows of the documents before it. */
  lemma {:induction false} AllRowsAt(docs: seq<Document>, rowsOf: Document -> seq<ChunkRow>, d: nat, i: nat)
    requires d < |docs| && i < |rowsOf(docs[d])|
    ensures |AllRows(docs[..d], rowsOf)| + i < |AllRows(docs, rowsOf)|
    ensures AllRows(docs, rowsOf)[|AllRows(docs[..d], rowsOf)| + i] == rowsOf(docs[d])[i]
  {
    var front := AllRows(docs[..d], rowsOf);
    var upto := docs[..d + 1];
    assert upto[..d] == docs[..d] && upto[d] == docs[d];
    assert AllRows(upto, rowsOf) == front + rowsOf(docs[d]);
    AllRowsPrefix(docs, rowsOf, d + 1);
    assert AllRows(docs, rowsOf)[|front| + i] == AllRows(upto, rowsOf)[|front| + i];
  }

  /** Each document contributes its paragraphs, numbered 0, 1, ... in
      order, right after the rows of the documents before it. */
  lemma {:induction false} RowsOfDocument(docs: seq<Document>, d: nat, i: nat)
    requires d < |docs| && i < |SplitParagraphs(docs[d].content)|
    ensures |AllRows(docs[..d], DocRows)| + i < |AllRows(docs, DocRows)|
    ensures AllRows(docs, DocRows)[|AllRows(docs[..d], DocRows)| + i] ==
      ChunkRow(docs[d].fileName, i, SplitParagraphs(docs[d].content)[i])
  {
    AllRowsAt(docs, DocRows, d, i);
  }
}
