/** Assembly of the `contents` lists sent to the generative-AI service by the
    detection and analysis requests. The instruction texts are policy wording
    that the code forwards verbatim and nothing branches on; here each is a
    short labelled stand-in constant. */
module Prompts {
  import opened Gateway
  import Strings
  import Seqs

  const TextPlain: string := "text/plain"

  /** Asks whether the documents concern one person or several, and for each
      person's name and file indices. */
  const DetectionInstruction: string := "[detection instruction]"
  /** The judicial-assistant role and the JSON answer format. */
  const AnalysisPreamble: string := "[analysis preamble]"
  /** The list of things to look for in the evidence. */
  const AnalysisCriteria: string := "[analysis criteria]"
  /** The single-case variant, which does not embed the free text. */
  const SingleAnalysisInstruction: string := "[single-case instruction]"
  /** Verbatim transcription with speaker labels and timestamps. */
  const AudioTranscriptionInstruction: string := "[transcription instruction]"

  /** The block that embeds free text in a request. */
  function DocumentsBlock(documents: string): string {
    "\n---TEXT DOCUMENTS---\n" + documents + "\n---"
  }

  /** The header that labels the file at upload position `i` in a detection request. */
  function IndexedFileHeader(i: nat, name: string): string {
    "\n--- File " + Strings.NatToString(i) + ": " + name + " ---\n"
  }

  /** The detection parts of one file: a plain-text file is one text part
      holding header and content; any other file is a header part followed by
      its bytes as inline data. */
  function DetectionFileParts(f: UploadedFile, i: nat): (r: seq<Part>)
    ensures f.mimeType == TextPlain <==> |r| == 1
    ensures 1 <= |r| <= 2
    ensures r[0].Text? && Strings.OccursAt(r[0].text, IndexedFileHeader(i, f.name), 0)
    ensures f.mimeType == TextPlain ==> Strings.OccursAt(r[0].text, f.text, |IndexedFileHeader(i, f.name)|)
    ensures |r| == 2 ==> r[1] == InlineData(f.mimeType, f.bytes)
  {
    var header := IndexedFileHeader(i, f.name);
    if f.mimeType == TextPlain then
      var t := header + f.text + "\n---\n";
      assert t[..|header|] == header;
      assert t[|header|..|header| + |f.text|] == f.text;
      [Text(t)]
    else
      [Text(header), InlineData(f.mimeType, f.bytes)]
  }

  /** The detection parts of the files, labelled from `start` in upload order. */
  function DetectionFilesParts(files: seq<UploadedFile>, start: nat): seq<Part> {
    if |files| == 0 then []
    else DetectionFileParts(files[0], start) + DetectionFilesParts(files[1..], start + 1)
  }

  /** File labels continue across a split of the file list: the files after
      the first `|a|` are labelled from `start + |a|`. */
  lemma {:induction false} DetectionFilesPartsAppend(a: seq<UploadedFile>, b: seq<UploadedFile>, start: nat)
    ensures DetectionFilesParts(a + b, start) ==
      DetectionFilesParts(a, start) + DetectionFilesParts(b, start + |a|)
  {
    if |a| == 0 {
      assert a + b == b;
    } else {
      assert (a + b)[1..] == a[1..] + b;
      DetectionFilesPartsAppend(a[1..], b, start + 1);
    }
  }

  /** The file at upload position `k` contributes its parts labelled `File k`,
      after the parts of every earlier file and before those of every later one. */
  lemma {:induction false} FileLabelledByPosition(files: seq<UploadedFile>, k: nat)
    requires k < |files|
    ensures DetectionFilesParts(files, 0) ==
      DetectionFilesParts(files[..k], 0) + DetectionFileParts(files[k], k) + DetectionFilesParts(files[k + 1..], k + 1)
  {
    var upTo := files[..k] + [files[k]];
    assert files == upTo + files[k + 1..];
    DetectionFilesPartsAppend(upTo, files[k + 1..], 0);
    PartsThroughFile(files[..k], files[k]);
  }

  /** Appending one file adds its parts, labelled with its position. */
  lemma {:induction false} PartsThroughFile(pre: seq<UploadedFile>, f: UploadedFile)
    ensures DetectionFilesParts(pre + [f], 0) == DetectionFilesParts(pre, 0) + DetectionFileParts(f, |pre|)
  {
    DetectionFilesPartsAppend(pre, [f], 0);
    SingleFileParts(f, |pre|);
  }

  lemma SingleFileParts(f: UploadedFile, i: nat)
    ensures DetectionFilesParts([f], i) == DetectionFileParts(f, i)
  {
    assert [f][1..] == [];
  }

  /** The detection request: the fixed instruction, the free text only when it
      is not blank, then every document file. Audio files are never part of it. */
  function DetectionParts(documents: string, files: seq<UploadedFile>): (r: seq<Part>)
    ensures |r| >= 1 && r[0] == Text(DetectionInstruction)
    ensures Strings.Trim(documents) != "" <==> |r| >= 2 && r[1] == Text(DocumentsBlock(documents))
    ensures |r| >= |DetectionFilesParts(files, 0)| && r[|r| - |DetectionFilesParts(files, 0)|..] == DetectionFilesParts(files, 0)
    // nothing else: the instruction, at most the free text, then the files
    ensures |r| == 1 + (if Strings.Trim(documents) != "" then 1 else 0) + |DetectionFilesParts(files, 0)|
  {
    var fileParts := DetectionFilesParts(files, 0);
    var docs := if Strings.Trim(documents) != "" then [Text(DocumentsBlock(documents))] else [];
    var r := [Text(DetectionInstruction)] + docs + fileParts;
    assert r[1 + |docs|..] == fileParts;
    assert docs == [] && |r| >= 2 ==> r[1] != Text(DocumentsBlock(documents)) by {
      if docs == [] && |r| >= 2 {
        assert r[1] == fileParts[0];
        FirstFileHeaderIsNotDocuments(files, documents);
      }
    }
    r
  }

  /** The first file part never looks like the free-text block: the headers
      differ at their fifth character. */
  lemma FirstFileHeaderIsNotDocuments(files: seq<UploadedFile>, documents: string)
    requires |files| > 0
    ensures DetectionFilesParts(files, 0)[0] != Text(DocumentsBlock(documents))
  {
    var parts := DetectionFileParts(files[0], 0);
    assert DetectionFilesParts(files, 0)[0] == parts[0];
    FileHeadingFifthChar(files[0]);
    DocumentsBlockFifthChar(documents);
  }

  lemma FileHeadingFifthChar(f: UploadedFile)
    ensures var t := DetectionFileParts(f, 0)[0].text; |t| > 4 && t[4] == ' '
  {
    var header := IndexedFileHeader(0, f.name);
    assert header == "\n--- File " + (Strings.NatToString(0) + ": " + f.name + " ---\n");
    assert Strings.OccursAt(DetectionFileParts(f, 0)[0].text, header, 0);
  }

  lemma DocumentsBlockFifthChar(documents: string)
    ensures var b := DocumentsBlock(documents); |b| > 4 && b[4] == 'T'
  {
    assert DocumentsBlock(documents) == "\n---TEXT DOCUMENTS---\n" + (documents + "\n---");
  }

  /** The analysis instruction; the free text is embedded whenever it is a
      non-empty string, even when it is only whitespace. */
  function AnalysisPrompt(documents: string): (r: string)
    ensures |r| >= |AnalysisPreamble| + |AnalysisCriteria|
    ensures r[..|AnalysisPreamble|] == AnalysisPreamble
    ensures r[|r| - |AnalysisCriteria|..] == AnalysisCriteria
    ensures documents != "" ==> r[|AnalysisPreamble|..|r| - |AnalysisCriteria|] == DocumentsBlock(documents)
    ensures |r| == |AnalysisPreamble| + |AnalysisCriteria| <==> documents == ""
  {
    var middle := if documents != "" then DocumentsBlock(documents) else "";
    var r := AnalysisPreamble + middle + AnalysisCriteria;
    assert r[..|AnalysisPreamble|] == AnalysisPreamble;
    assert r[|r| - |AnalysisCriteria|..] == AnalysisCriteria;
    assert r[|AnalysisPreamble|..|r| - |AnalysisCriteria|] == middle;
    r
  }

  /** A transcribed audio file, by file name. */
  datatype Transcript = Transcript(fileName: string, text: string)

  function TranscriptPart(t: Transcript): Part {
    Text("\n--- AUDIO TRANSCRIPT: " + t.fileName + " ---\n" + t.text + "\n---\n")
  }

  /** The analysis part of one document file: inline text for plain text,
      inline data (no header) for everything else. */
  function AnalysisFilePart(f: UploadedFile): (p: Part)
    ensures p.InlineData? <==> f.mimeType != TextPlain
    ensures p.InlineData? ==> p == InlineData(f.mimeType, f.bytes)
    // a text file is its named header, then its whole content
    ensures !p.InlineData? ==> p.Text? && Strings.OccursAt(p.text, FileHeader(f.name), 0)
    ensures !p.InlineData? ==> Strings.OccursAt(p.text, f.text, |FileHeader(f.name)|)
  {
    if f.mimeType == TextPlain then
      var header := FileHeader(f.name);
      var t := header + f.text + "\n---\n";
      assert t[..|header|] == header;
      assert t[|header|..|header| + |f.text|] == f.text;
      Text(t)
    else InlineData(f.mimeType, f.bytes)
  }

  /** The header of a text file in the analysis request: its name, unnumbered. */
  function FileHeader(name: string): string {
    "\n--- File: " + name + " ---\n"
  }

  /** The analysis request: the instruction, one part per transcript, one part per file. */
  function AnalysisParts(documents: string, transcripts: seq<Transcript>, files: seq<UploadedFile>): seq<Part> {
    [Text(AnalysisPrompt(documents))] + Seqs.Map(transcripts, TranscriptPart) + Seqs.Map(files, AnalysisFilePart)
  }

  /** Layout of an analysis request: the prompt first, then the transcripts in
      order, then the files in order, nothing else. */
  lemma AnalysisPartsLayout(documents: string, transcripts: seq<Transcript>, files: seq<UploadedFile>)
    ensures var r := AnalysisParts(documents, transcripts, files);
      && |r| == 1 + |transcripts| + |files|
      && r[0] == Text(AnalysisPrompt(documents))
      && (forall i :: 0 <= i < |transcripts| ==> r[1 + i] == TranscriptPart(transcripts[i]))
      && (forall j :: 0 <= j < |files| ==> r[1 + |transcripts| + j] == AnalysisFilePart(files[j]))
  {
  }
}
