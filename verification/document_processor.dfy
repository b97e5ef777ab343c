/** Document ingestion on the backend (`services/document_processor.py`): page
    and paragraph extraction with their numbers, the choice of extractor by
    file suffix, and chunk numbering with location tags. The PDF and DOCX
    readers and the text splitter are parameters. */
module DocumentProcessor {
  import opened Wrappers
  import Strings
  import Seqs
  import Helpers

  const UnsupportedPrefix: string := "Unsupported file type: "

  /** A page or paragraph kept by an extractor, with its 1-based number. */
  datatype RawChunk = PdfPage(text: string, page: nat) | DocxParagraph(text: string, paragraph: nat)

  /** One stored chunk with its metadata. */
  datatype Chunk = Chunk(
    text: string,
    source: string,
    location: string,
    chunkId: string,
    clientDocId: string,
    clientName: string)

  /** Every page paired with its number, counting from 1. */
  function NumberedPages(pages: seq<string>): (r: seq<RawChunk>)
    ensures |r| == |pages| && forall i :: 0 <= i < |r| ==> r[i] == PdfPage(pages[i], i + 1)
  {
    seq(|pages|, (i: int) requires 0 <= i < |pages| => PdfPage(pages[i], i + 1))
  }

  function NotBlank(raw: RawChunk): bool {
    Strings.Trim(raw.text) != ""
  }

  lemma NumberedPagesMembers(pages: seq<string>)
    ensures forall x: RawChunk :: x in NumberedPages(pages) <==>
      x.PdfPage? && 1 <= x.page <= |pages| && x.text == pages[x.page - 1]
  {
    var numbered := NumberedPages(pages);
    forall x: RawChunk | x.PdfPage? && 1 <= x.page <= |pages| && x.text == pages[x.page - 1]
      ensures x in numbered
    {
      assert numbered[x.page - 1] == x;
    }
  }

  /** `extract_text_from_pdf`: blank pages are skipped; a kept page keeps its
      own number and its unstripped text. */
  function PdfPages(pages: seq<string>): (r: seq<RawChunk>)
    ensures forall x: RawChunk :: x in r <==>
      x.PdfPage? && 1 <= x.page <= |pages| && x.text == pages[x.page - 1] && Strings.Trim(x.text) != ""
  {
    NumberedPagesMembers(pages);
    Seqs.Filter(NumberedPages(pages), NotBlank)
  }

  /** Every (already stripped) paragraph paired with its number, counting from 1. */
  function NumberedParagraphs(stripped: seq<string>): (r: seq<RawChunk>)
    ensures |r| == |stripped| && forall i :: 0 <= i < |r| ==> r[i] == DocxParagraph(stripped[i], i + 1)
  {
    seq(|stripped|, (i: int) requires 0 <= i < |stripped| => DocxParagraph(stripped[i], i + 1))
  }

  lemma NumberedParagraphsMembers(stripped: seq<string>)
    ensures forall x: RawChunk :: x in NumberedParagraphs(stripped) <==>
      x.DocxParagraph? && 1 <= x.paragraph <= |stripped| && x.text == stripped[x.paragraph - 1]
  {
    var numbered := NumberedParagraphs(stripped);
    forall x: RawChunk | x.DocxParagraph? && 1 <= x.paragraph <= |stripped| && x.text == stripped[x.paragraph - 1]
      ensures x in numbered
    {
      assert numbered[x.paragraph - 1] == x;
    }
  }

  /** A stripped paragraph is blank exactly when it is empty. */
  lemma StrippedBlankIffEmpty(paragraphs: seq<string>)
    ensures forall i :: 0 <= i < |paragraphs| ==>
      (Strings.Trim(Strings.Trim(paragraphs[i])) != "" <==> Strings.Trim(paragraphs[i]) != "")
  {
    forall i | 0 <= i < |paragraphs|
      ensures Strings.Trim(Strings.Trim(paragraphs[i])) != "" <==> Strings.Trim(paragraphs[i]) != ""
    {
      Strings.TrimOfTrimmed(Strings.Trim(paragraphs[i]));
    }
  }

  /** `extract_text_from_docx`: paragraphs are stripped and empty ones
      skipped; a kept paragraph keeps its own number. */
  function DocxParagraphs(paragraphs: seq<string>): (r: seq<RawChunk>)
    ensures forall x: RawChunk :: x in r <==>
      x.DocxParagraph? && 1 <= x.paragraph <= |paragraphs| && x.text == Strings.Trim(paragraphs[x.paragraph - 1]) && x.text != ""
  {
    var stripped := Seqs.Map(paragraphs, Strings.Trim);
    NumberedParagraphsMembers(stripped);
    StrippedBlankIffEmpty(paragraphs);
    Seqs.Filter(NumberedParagraphs(stripped), NotBlank)
  }

  function PositionOf(raw: RawChunk): nat {
    if raw.PdfPage? then raw.page else raw.paragraph
  }

  function NumberedBefore(a: RawChunk, b: RawChunk): bool {
    PositionOf(a) < PositionOf(b)
  }

  /** Skipping renumbers nothing: kept pages stay in strictly increasing page order. */
  lemma PagesInOrder(pages: seq<string>)
    ensures forall i, j :: 0 <= i < j < |PdfPages(pages)| ==> PdfPages(pages)[i].page < PdfPages(pages)[j].page
  {
    var r := PdfPages(pages);
    Seqs.FilterKeepsOrder(NumberedPages(pages), NotBlank, NumberedBefore);
    forall i, j | 0 <= i < j < |r|
      ensures r[i].page < r[j].page
    {
      assert r[i] in r && r[j] in r;
      assert NumberedBefore(r[i], r[j]);
    }
  }

  /** Kept paragraphs stay in strictly increasing paragraph order. */
  lemma ParagraphsInOrder(paragraphs: seq<string>)
    ensures forall i, j :: 0 <= i < j < |DocxParagraphs(paragraphs)| ==>
      DocxParagraphs(paragraphs)[i].paragraph < DocxParagraphs(paragraphs)[j].paragraph
  {
    var r := DocxParagraphs(paragraphs);
    Seqs.FilterKeepsOrder(NumberedParagraphs(Seqs.Map(paragraphs, Strings.Trim)), NotBlank, NumberedBefore);
    forall i, j | 0 <= i < j < |r|
      ensures r[i].paragraph < r[j].paragraph
    {
      assert r[i] in r && r[j] in r;
      assert NumberedBefore(r[i], r[j]);
    }
  }

  datatype Extractor = PdfExtractor | DocxExtractor

  /** The branch on the lowercased suffix of the path. */
  function ExtractorFor(filePath: string): (r: Result<Extractor, string>)
    ensures r == Success(PdfExtractor) <==> Helpers.FileExtension(filePath) == ".pdf"
    ensures r == Success(DocxExtractor) <==> Helpers.FileExtension(filePath) in {".docx", ".doc"}
    ensures r.Failure? ==> r.error == UnsupportedPrefix + Helpers.FileExtension(filePath)
    ensures r.Success? <==> Helpers.ValidateFileType(filePath)
  {
    var ext := Helpers.FileExtension(filePath);
    if ext == ".pdf" then Success(PdfExtractor)
    else if ext in [".docx", ".doc"] then Success(DocxExtractor)
    else Failure(UnsupportedPrefix + ext)
  }

  /** `p.{page}` for a PDF page, `para.{n}` for a paragraph: the second
      character tells the kinds apart, and the digits after the prefix are
      the page or paragraph number. */
  function LocationOf(raw: RawChunk): (r: string)
    ensures |r| > 2 && r[0] == 'p'
    ensures r[1] == '.' <==> raw.PdfPage?
    ensures raw.PdfPage? ==> r[2..] == Strings.NatToString(raw.page)
    ensures raw.DocxParagraph? ==> |r| > 5 && r[..5] == "para." && r[5..] == Strings.NatToString(raw.paragraph)
  {
    match raw
    case PdfPage(_, page) =>
      var r := "p." + Strings.NatToString(page);
      assert r[2..] == Strings.NatToString(page);
      r
    case DocxParagraph(_, paragraph) =>
      var r := "para." + Strings.NatToString(paragraph);
      assert r[..5] == "para." && r[5..] == Strings.NatToString(paragraph);
      r
  }

  /** Two raw chunks share a location only when they are of one kind and
      carry one number. */
  lemma LocationOfInjective(a: RawChunk, b: RawChunk)
    requires LocationOf(a) == LocationOf(b)
    ensures a.PdfPage? == b.PdfPage? && PositionOf(a) == PositionOf(b)
  {
    if a.PdfPage? {
      Strings.NatToStringInjective(a.page, b.page);
    } else {
      Strings.NatToStringInjective(a.paragraph, b.paragraph);
    }
  }

  function WithLocation(location: string): string -> (string, string) {
    (piece: string) => (piece, location)
  }

  /** Every split piece of every raw chunk with its location, in page order
      and then split order. */
  function Pieces(raws: seq<RawChunk>, split: string -> seq<string>): seq<(string, string)> {
    if |raws| == 0 then []
    else Seqs.Map(split(raws[0].text), WithLocation(LocationOf(raws[0]))) + Pieces(raws[1..], split)
  }

  /** Each piece is a split piece of one raw chunk and carries that chunk's location. */
  predicate PieceOf(piece: (string, string), raw: RawChunk, split: string -> seq<string>) {
    piece.1 == LocationOf(raw) && piece.0 in split(raw.text)
  }

  /** Which raw chunk each piece was split from: the first chunk's pieces,
      then the next chunk's, so the origins never decrease. */
  function Origins(raws: seq<RawChunk>, split: string -> seq<string>): (r: seq<nat>)
    ensures |r| == |Pieces(raws, split)|
    ensures forall i :: 0 <= i < |r| ==> r[i] < |raws|
    ensures forall i, j :: 0 <= i <= j < |r| ==> r[i] <= r[j]
  {
    if |raws| == 0 then []
    else
      var zeros := Zeros(|split(raws[0].text)|);
      var shifted := Shifted(Origins(raws[1..], split));
      var r := zeros + shifted;
      assert forall i :: 0 <= i < |r| ==> (i < |zeros| ==> r[i] == 0) && (i >= |zeros| ==> r[i] == shifted[i - |zeros|]);
      r
  }

  function Zeros(n: nat): (r: seq<nat>)
    ensures |r| == n && forall i :: 0 <= i < n ==> r[i] == 0
  {
    seq(n, _ => 0)
  }

  /** Every element one more, order kept. */
  function Shifted(s: seq<nat>): (r: seq<nat>)
    ensures |r| == |s| && forall i :: 0 <= i < |s| ==> r[i] == s[i] + 1
    ensures (forall i, j :: 0 <= i <= j < |s| ==> s[i] <= s[j]) ==> forall i, j :: 0 <= i <= j < |r| ==> r[i] <= r[j]
  {
    seq(|s|, i requires 0 <= i < |s| => s[i] + 1)
  }

  /** Each piece is a split piece of its origin and carries its location. */
  lemma {:induction false} OriginsSound(raws: seq<RawChunk>, split: string -> seq<string>, i: nat)
    requires i < |Pieces(raws, split)|
    ensures Origins(raws, split)[i] < |raws| && PieceOf(Pieces(raws, split)[i], raws[Origins(raws, split)[i]], split)
  {
    var n := |split(raws[0].text)|;
    if i < n {
      OriginsHead(raws, split, i);
    } else {
      OriginsTail(raws, split, i);
      OriginsSound(raws[1..], split, i - n);
      var k := Origins(raws[1..], split)[i - n];
      assert raws[1..][k] == raws[k + 1];
    }
  }

  /** The first chunk's pieces come first, from it. */
  lemma OriginsHead(raws: seq<RawChunk>, split: string -> seq<string>, i: nat)
    requires |raws| > 0 && i < |split(raws[0].text)|
    ensures Origins(raws, split)[i] == 0
    ensures Pieces(raws, split)[i] == (split(raws[0].text)[i], LocationOf(raws[0]))
  {
    var head := Seqs.Map(split(raws[0].text), WithLocation(LocationOf(raws[0])));
    assert Pieces(raws, split)[i] == head[i];
  }

  /** After them come the other chunks' pieces, with origins one further on. */
  lemma OriginsTail(raws: seq<RawChunk>, split: string -> seq<string>, i: nat)
    requires |raws| > 0 && |split(raws[0].text)| <= i < |Pieces(raws, split)|
    ensures Origins(raws, split)[i] == Origins(raws[1..], split)[i - |split(raws[0].text)|] + 1
    ensures Pieces(raws, split)[i] == Pieces(raws[1..], split)[i - |split(raws[0].text)|]
  {
    var n := |split(raws[0].text)|;
    var shifted := Shifted(Origins(raws[1..], split));
    assert Origins(raws, split) == Zeros(n) + shifted;
    assert Origins(raws, split)[i] == shifted[i - n];
  }

  /** When the raw chunks come in increasing page or paragraph order, so do
      the pieces' origins. */
  lemma PiecesInDocumentOrder(raws: seq<RawChunk>, split: string -> seq<string>)
    requires forall i, j :: 0 <= i < j < |raws| ==> PositionOf(raws[i]) < PositionOf(raws[j])
    ensures forall i, j :: 0 <= i <= j < |Pieces(raws, split)| ==>
      PositionOf(raws[Origins(raws, split)[i]]) <= PositionOf(raws[Origins(raws, split)[j]])
  {
    var o := Origins(raws, split);
    forall i, j | 0 <= i <= j < |o|
      ensures PositionOf(raws[o[i]]) <= PositionOf(raws[o[j]])
    {
      assert o[i] <= o[j];
    }
  }

  /** Pieces of consecutive runs of raw chunks follow each other. */
  lemma {:induction false} PiecesAppend(a: seq<RawChunk>, b: seq<RawChunk>, split: string -> seq<string>)
    ensures Pieces(a + b, split) == Pieces(a, split) + Pieces(b, split)
  {
    if |a| > 0 {
      assert (a + b)[1..] == a[1..] + b;
      PiecesAppend(a[1..], b, split);
    } else {
      assert a + b == b;
    }
  }

  /** `{source}_{n}`. */
  function ChunkId(source: string, n: nat): string {
    source + "_" + Strings.NatToString(n)
  }

  /** Different counters give different chunk ids for one source. */
  lemma ChunkIdInjective(source: string, a: nat, b: nat)
    requires ChunkId(source, a) == ChunkId(source, b)
    ensures a == b
  {
    var p := source + "_";
    assert ChunkId(source, a) == p + Strings.NatToString(a);
    assert ChunkId(source, b) == p + Strings.NatToString(b);
    assert Strings.NatToString(a) == ChunkId(source, a)[|p|..];
    assert Strings.NatToString(b) == ChunkId(source, b)[|p|..];
    Strings.NatToStringInjective(a, b);
  }

  /** The chunk records, numbered on from `next`. */
  function Number(pieces: seq<(string, string)>, source: string, clientDocId: string, clientName: string, next: nat): (r: seq<Chunk>)
    ensures |r| == |pieces|
    ensures forall i :: 0 <= i < |r| ==>
      r[i] == Chunk(pieces[i].0, source, pieces[i].1, ChunkId(source, next + i), clientDocId, clientName)
  {
    if |pieces| == 0 then []
    else
      var first := Chunk(pieces[0].0, source, pieces[0].1, ChunkId(source, next), clientDocId, clientName);
      [first] + Number(pieces[1..], source, clientDocId, clientName, next + 1)
  }

  /** The kept pages or paragraphs of a supported file, in order. */
  function RawChunks(kind: Extractor, filePath: string,
                     readPdfPages: string -> seq<string>, readDocxParagraphs: string -> seq<string>): seq<RawChunk> {
    if kind == PdfExtractor then PdfPages(readPdfPages(filePath)) else DocxParagraphs(readDocxParagraphs(filePath))
  }

  /** The metadata every chunk of one call carries: its own source and client,
      and the id `{source}_{n}` for the n-th chunk, so ids never repeat. */
  predicate NumberedFor(chunks: seq<Chunk>, source: string, clientDocId: string, clientName: string) {
    && (forall i :: 0 <= i < |chunks| ==>
      && chunks[i].chunkId == ChunkId(source, i + 1)
      && chunks[i].source == source
      && chunks[i].clientDocId == clientDocId
      && chunks[i].clientName == clientName)
    && (forall i, j :: 0 <= i < j < |chunks| ==> chunks[i].chunkId != chunks[j].chunkId)
  }

  /** `process_document`: choose the extractor by suffix, extract, split each
      kept page or paragraph, and number the pieces from 1. */
  function ProcessDocument(
    filePath: string, source: string, clientDocId: string, clientName: string,
    readPdfPages: string -> seq<string>, readDocxParagraphs: string -> seq<string>,
    split: string -> seq<string>): (r: Result<seq<Chunk>, string>)
    ensures r.Failure? <==> !Helpers.ValidateFileType(filePath)
    ensures r.Failure? ==> r.error == UnsupportedPrefix + Helpers.FileExtension(filePath)
    ensures r.Success? ==> NumberedFor(r.value, source, clientDocId, clientName)
    ensures r.Success? ==>
      r.value == ChunksOf(Pieces(RawChunks(ExtractorFor(filePath).value, filePath, readPdfPages, readDocxParagraphs), split),
                          source, clientDocId, clientName)
  {
    match ExtractorFor(filePath)
    case Failure(e) => Failure(e)
    case Success(kind) =>
      Success(ChunksOf(Pieces(RawChunks(kind, filePath, readPdfPages, readDocxParagraphs), split), source, clientDocId, clientName))
  }

  /** The pieces numbered from 1 as chunks of one upload. */
  function ChunksOf(pieces: seq<(string, string)>, source: string, clientDocId: string, clientName: string): (r: seq<Chunk>)
    ensures |r| == |pieces|
    ensures forall i :: 0 <= i < |r| ==> r[i].text == pieces[i].0 && r[i].location == pieces[i].1
    ensures NumberedFor(r, source, clientDocId, clientName)
  {
    var chunks := Number(pieces, source, clientDocId, clientName, 1);
    NumberedIdsDistinct(chunks, source, 1);
    chunks
  }

  /** Consecutively numbered chunks of one source have pairwise different ids. */
  lemma NumberedIdsDistinct(chunks: seq<Chunk>, source: string, next: nat)
    requires forall i :: 0 <= i < |chunks| ==> chunks[i].chunkId == ChunkId(source, next + i)
    ensures forall i, j :: 0 <= i < j < |chunks| ==> chunks[i].chunkId != chunks[j].chunkId
  {
    forall i, j | 0 <= i < j < |chunks| && chunks[i].chunkId == chunks[j].chunkId
      ensures false
    {
      ChunkIdInjective(source, next + i, next + j);
    }
  }

  /** The chunks of a supported file, with the kept page or paragraph each
      one was split from: its text is a piece of that one, it carries that
      one's location, and the page or paragraph numbers never decrease from
      one chunk to the next. */
  lemma ChunksInDocumentOrder(
    filePath: string, source: string, clientDocId: string, clientName: string,
    readPdfPages: string -> seq<string>, readDocxParagraphs: string -> seq<string>,
    split: string -> seq<string>)
    requires Helpers.ValidateFileType(filePath)
    ensures var raws := RawChunks(ExtractorFor(filePath).value, filePath, readPdfPages, readDocxParagraphs);
      var o := Origins(raws, split);
      var chunks := ProcessDocument(filePath, source, clientDocId, clientName, readPdfPages, readDocxParagraphs, split).value;
      && |o| == |chunks|
      && (forall i :: 0 <= i < |chunks| ==>
           o[i] < |raws| && chunks[i].location == LocationOf(raws[o[i]]) && chunks[i].text in split(raws[o[i]].text))
      && (forall i, j :: 0 <= i <= j < |chunks| ==> PositionOf(raws[o[i]]) <= PositionOf(raws[o[j]]))
  {
    var raws := RawChunks(ExtractorFor(filePath).value, filePath, readPdfPages, readDocxParagraphs);
    var pieces := Pieces(raws, split);
    var o := Origins(raws, split);
    var chunks := ChunksOf(pieces, source, clientDocId, clientName);
    forall i | 0 <= i < |chunks|
      ensures chunks[i].location == LocationOf(raws[o[i]]) && chunks[i].text in split(raws[o[i]].text)
    {
      OriginsSound(raws, split, i);
    }
    RawChunksInOrder(ExtractorFor(filePath).value, filePath, readPdfPages, readDocxParagraphs);
    PiecesInDocumentOrder(raws, split);
  }

  lemma RawChunksInOrder(kind: Extractor, filePath: string,
                         readPdfPages: string -> seq<string>, readDocxParagraphs: string -> seq<string>)
    ensures var raws := RawChunks(kind, filePath, readPdfPages, readDocxParagraphs);
      forall i, j :: 0 <= i < j < |raws| ==> PositionOf(raws[i]) < PositionOf(raws[j])
  {
    var raws := RawChunks(kind, filePath, readPdfPages, readDocxParagraphs);
    if kind == PdfExtractor {
      PagesInOrder(readPdfPages(filePath));
      assert forall x :: x in raws ==> x.PdfPage?;
      forall i, j | 0 <= i < j < |raws|
        ensures PositionOf(raws[i]) < PositionOf(raws[j])
      {
        assert raws[i] in raws && raws[j] in raws;
      }
    } else {
      ParagraphsInOrder(readDocxParagraphs(filePath));
      assert forall x :: x in raws ==> x.DocxParagraph?;
      forall i, j | 0 <= i < j < |raws|
        ensures PositionOf(raws[i]) < PositionOf(raws[j])
      {
        assert raws[i] in raws && raws[j] in raws;
      }
    }
  }

  /** A PDF chunk is located at a non-blank page of the document, and its
      text is a piece of that page. */
  lemma PdfChunksComeFromKeptPages(
    filePath: string, source: string, clientDocId: string, clientName: string,
    readPdfPages: string -> seq<string>, readDocxParagraphs: string -> seq<string>,
    split: string -> seq<string>, i: nat)
    requires Helpers.FileExtension(filePath) == ".pdf"
    requires i < |ProcessDocument(filePath, source, clientDocId, clientName, readPdfPages, readDocxParagraphs, split).value|
    ensures exists page: nat ::
      && 1 <= page <= |readPdfPages(filePath)|
      && Strings.Trim(readPdfPages(filePath)[page - 1]) != ""
      && ProcessDocument(filePath, source, clientDocId, clientName, readPdfPages, readDocxParagraphs, split).value[i].location == "p." + Strings.NatToString(page)
      && ProcessDocument(filePath, source, clientDocId, clientName, readPdfPages, readDocxParagraphs, split).value[i].text in split(readPdfPages(filePath)[page - 1])
  {
    var raws := PdfPages(readPdfPages(filePath));
    var r := ProcessDocument(filePath, source, clientDocId, clientName, readPdfPages, readDocxParagraphs, split);
    assert r.value == ChunksOf(Pieces(raws, split), source, clientDocId, clientName);
    OriginsSound(raws, split, i);
    var k := Origins(raws, split)[i];
    assert raws[k] in raws;
    var page := raws[k].page;
    assert r.value[i].location == "p." + Strings.NatToString(page);
  }

  /** A DOCX chunk is located at a non-empty paragraph of the document, and its
      text is a piece of that paragraph stripped. */
  lemma DocxChunksComeFromKeptParagraphs(
    filePath: string, source: string, clientDocId: string, clientName: string,
    readPdfPages: string -> seq<string>, readDocxParagraphs: string -> seq<string>,
    split: string -> seq<string>, i: nat)
    requires Helpers.FileExtension(filePath) in {".docx", ".doc"}
    requires i < |ProcessDocument(filePath, source, clientDocId, clientName, readPdfPages, readDocxParagraphs, split).value|
    ensures exists n: nat ::
      && 1 <= n <= |readDocxParagraphs(filePath)|
      && Strings.Trim(readDocxParagraphs(filePath)[n - 1]) != ""
      && ProcessDocument(filePath, source, clientDocId, clientName, readPdfPages, readDocxParagraphs, split).value[i].location == "para." + Strings.NatToString(n)
      && ProcessDocument(filePath, source, clientDocId, clientName, readPdfPages, readDocxParagraphs, split).value[i].text in split(Strings.Trim(readDocxParagraphs(filePath)[n - 1]))
  {
    var raws := DocxParagraphs(readDocxParagraphs(filePath));
    var r := ProcessDocument(filePath, source, clientDocId, clientName, readPdfPages, readDocxParagraphs, split);
    assert r.value == ChunksOf(Pieces(raws, split), source, clientDocId, clientName);
    OriginsSound(raws, split, i);
    var k := Origins(raws, split)[i];
    assert raws[k] in raws;
    var n := raws[k].paragraph;
    assert r.value[i].location == "para." + Strings.NatToString(n);
  }

  /** A one-page PDF whose page the splitter keeps whole becomes one chunk,
      `{source}_1` at `p.1`. */
  lemma SinglePageDocument(
    filePath: string, source: string, clientDocId: string, clientName: string,
    readPdfPages: string -> seq<string>, readDocxParagraphs: string -> seq<string>,
    split: string -> seq<string>)
    requires Helpers.FileExtension(filePath) == ".pdf"
    requires |readPdfPages(filePath)| == 1 && Strings.Trim(readPdfPages(filePath)[0]) != ""
    requires split(readPdfPages(filePath)[0]) == [readPdfPages(filePath)[0]]
    ensures ProcessDocument(filePath, source, clientDocId, clientName, readPdfPages, readDocxParagraphs, split)
      == Success([Chunk(readPdfPages(filePath)[0], source, "p.1", source + "_1", clientDocId, clientName)])
  {
    var pages := readPdfPages(filePath);
    OnePagePieces(pages, split);
    OneChunk(pages[0], source, clientDocId, clientName);
    assert ExtractorFor(filePath) == Success(PdfExtractor);
  }

  /** The one kept page, kept whole, is one piece at `p.1`. */
  lemma OnePagePieces(pages: seq<string>, split: string -> seq<string>)
    requires |pages| == 1 && Strings.Trim(pages[0]) != ""
    requires split(pages[0]) == [pages[0]]
    ensures Pieces(PdfPages(pages), split) == [(pages[0], "p.1")]
  {
    OnePage(pages);
    var raw := PdfPage(pages[0], 1);
    assert LocationOf(raw) == "p.1" by {
      assert Strings.NatToString(1) == ['1'];
    }
    PiecesOfOne(raw, split);
  }

  lemma OneChunk(text: string, source: string, clientDocId: string, clientName: string)
    ensures ChunksOf([(text, "p.1")], source, clientDocId, clientName)
      == [Chunk(text, source, "p.1", source + "_1", clientDocId, clientName)]
  {
    FirstChunkId(source);
  }

  lemma FirstChunkId(source: string)
    ensures ChunkId(source, 1) == source + "_1"
  {
    assert Strings.NatToString(1) == "1";
    assert source + "_" + "1" == source + ("_" + "1");
  }

  lemma OnePage(pages: seq<string>)
    requires |pages| == 1 && Strings.Trim(pages[0]) != ""
    ensures PdfPages(pages) == [PdfPage(pages[0], 1)]
  {
    var numbered := NumberedPages(pages);
    assert numbered == [PdfPage(pages[0], 1)];
    assert numbered[1..] == [];
  }

  lemma PiecesOfOne(raw: RawChunk, split: string -> seq<string>)
    ensures Pieces([raw], split) == Seqs.Map(split(raw.text), WithLocation(LocationOf(raw)))
  {
    assert [raw][1..] == [];
  }
}
