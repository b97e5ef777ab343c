/** The `/api/analyze-single` route: one analysis request built from the
    submission without transcribing audio, a reply read as `{}` when blank,
    and a save under the person name or the placeholder. Every failure is the
    same 500 response. */
module AnalyzeSingleRoute {
  import opened Wrappers
  import opened CaseTypes
  import opened Gateway
  import Strings
  import Seqs
  import Prompts
  import Persistence
  import AnalyzeRoute
  import Rows

  const FailureMessage: string := "Failed to analyze case"

  datatype Response = Analyzed(saved: Persistence.Saved) | Failed(status: nat, message: string)

  datatype Outcome = Outcome(response: Response, effects: seq<Effect>)

  /** The stand-in part for an audio file: its name and no transcript. */
  function AudioPlaceholder(audio: UploadedFile): Part {
    Text("\n--- AUDIO FILE: " + audio.name + " (transcription would go here) ---\n")
  }

  /** The free-text part: present only when the text is not blank. */
  function DocumentsPart(documents: string): (r: seq<Part>)
    ensures |r| <= 1
    ensures r != [] <==> Strings.Trim(documents) != ""
    ensures r != [] ==> r[0] == Text(Prompts.DocumentsBlock(documents))
  {
    if Strings.Trim(documents) != "" then [Text(Prompts.DocumentsBlock(documents))] else []
  }

  /** The request: the instruction, the free text when it is not blank, one
      placeholder per audio file, then one part per document file. */
  function SingleParts(documents: string, pdfFiles: seq<UploadedFile>, audioFiles: seq<UploadedFile>): (r: seq<Part>)
    ensures var d := |DocumentsPart(documents)|;
      && |r| == 1 + d + |audioFiles| + |pdfFiles|
      && r[0] == Text(Prompts.SingleAnalysisInstruction)
      && r[1..1 + d] == DocumentsPart(documents)
      && r[1 + d..1 + d + |audioFiles|] == Seqs.Map(audioFiles, AudioPlaceholder)
      && r[1 + d + |audioFiles|..] == Seqs.Map(pdfFiles, Prompts.AnalysisFilePart)
  {
    var front := [Text(Prompts.SingleAnalysisInstruction)] + DocumentsPart(documents);
    var audio := Seqs.Map(audioFiles, AudioPlaceholder);
    var r := front + audio + Seqs.Map(pdfFiles, Prompts.AnalysisFilePart);
    assert r[..|front|] == front;
    assert r[|front|..|front| + |audio|] == audio;
    r
  }

  /** The free-text part is present exactly when the text is not blank. */
  lemma DocumentsPartIffNotBlank(documents: string, pdfFiles: seq<UploadedFile>, audioFiles: seq<UploadedFile>)
    ensures var r := SingleParts(documents, pdfFiles, audioFiles);
      Strings.Trim(documents) != "" <==> |r| >= 2 && r[1] == Text(Prompts.DocumentsBlock(documents))
  {
    var r := SingleParts(documents, pdfFiles, audioFiles);
    if Strings.Trim(documents) != "" {
      assert r[1] == r[1..2][0];
    } else if |r| >= 2 {
      if |audioFiles| > 0 {
        assert r[1] == r[1..1 + |audioFiles|][0];
        AudioPlaceholderIsNotDocuments(audioFiles[0], documents);
      } else {
        assert r[1] == r[1..][0];
        FilePartIsNotDocuments(pdfFiles[0], documents);
      }
    }
  }

  lemma AudioPlaceholderIsNotDocuments(audio: UploadedFile, documents: string)
    ensures AudioPlaceholder(audio) != Text(Prompts.DocumentsBlock(documents))
  {
    var t := AudioPlaceholder(audio).text;
    assert t == "\n--- AUDIO FILE: " + (audio.name + " (transcription would go here) ---\n");
    assert t[4] == ' ';
    Prompts.DocumentsBlockFifthChar(documents);
  }

  lemma FilePartIsNotDocuments(f: UploadedFile, documents: string)
    ensures Prompts.AnalysisFilePart(f) != Text(Prompts.DocumentsBlock(documents))
  {
    var p := Prompts.AnalysisFilePart(f);
    if p.Text? {
      assert p.text == "\n--- File: " + (f.name + " ---\n" + f.text + "\n---\n");
      assert p.text[4] == ' ';
      Prompts.DocumentsBlockFifthChar(documents);
    }
  }

  /** `JSON.parse(text?.trim() || "{}")`: a blank reply is the empty object. */
  function ParseOrEmpty(text: Option<string>, svc: Services): (r: Option<AnalysisReply>)
    ensures ReplyText(text) == "" ==> r == Some(EmptyReply)
    ensures ReplyText(text) != "" ==> r == svc.parseAnalysis(ReplyText(text))
  {
    if ReplyText(text) == "" then Some(EmptyReply) else svc.parseAnalysis(ReplyText(text))
  }

  /** `POST /api/analyze-single`. */
  function Post(documents: string, pdfFiles: seq<UploadedFile>, audioFiles: seq<UploadedFile>, svc: Services): (o: Outcome)
    // exactly one service call, the analysis request; nothing is transcribed
    ensures |o.effects| >= 1 && o.effects[0] == Generate(AnalyzeCase, SingleParts(documents, pdfFiles, audioFiles))
    ensures CountCalls(o.effects, AnalyzeCase) == 1
    ensures CountCalls(o.effects, TranscribeAudio) == 0
    // every failure is the same response
    ensures o.response.Failed? ==> o.response == Failed(500, FailureMessage)
    ensures o.response.Analyzed? ==> CountSaves(o.effects) == 1
    ensures o.response.Analyzed? ==>
      && o.effects[1].InsertParent?
      && o.response.saved.caseName == o.effects[1].row.caseName == AnalyzeRoute.CaseNameFor(o.effects[1].row.personName)
    // the analysis succeeds exactly when the call is answered, the reply (or
    // the empty object, for a blank one) parses and the save of what it
    // parses to succeeds; the response is that saved record
    ensures var reply := svc.generate(AnalyzeCase, SingleParts(documents, pdfFiles, audioFiles));
      o.response.Analyzed? <==>
        && reply.Replied?
        && ParseOrEmpty(reply.text, svc).Some?
        && SaveOf(ParseOrEmpty(reply.text, svc).value, svc).result.Success?
    ensures o.response.Analyzed? ==>
      var reply := svc.generate(AnalyzeCase, SingleParts(documents, pdfFiles, audioFiles));
      o.response.saved == SaveOf(ParseOrEmpty(reply.text, svc).value, svc).result.value
  {
    var parts := SingleParts(documents, pdfFiles, audioFiles);
    Answer(parts, svc.generate(AnalyzeCase, parts), svc)
  }

  /** What follows the analysis request, given its reply. */
  function Answer(parts: seq<Part>, reply: OracleReply, svc: Services): (o: Outcome)
    ensures |o.effects| >= 1 && o.effects[0] == Generate(AnalyzeCase, parts)
    ensures CountCalls(o.effects, AnalyzeCase) == 1
    ensures CountCalls(o.effects, TranscribeAudio) == 0
    ensures o.response.Failed? ==> o.response == Failed(500, FailureMessage)
    ensures o.response.Analyzed? ==> CountSaves(o.effects) == 1
    ensures o.response.Analyzed? ==>
      && o.effects[1].InsertParent?
      && o.response.saved.caseName == o.effects[1].row.caseName == AnalyzeRoute.CaseNameFor(o.effects[1].row.personName)
    ensures o.response.Analyzed? <==>
      && reply.Replied?
      && ParseOrEmpty(reply.text, svc).Some?
      && SaveOf(ParseOrEmpty(reply.text, svc).value, svc).result.Success?
    ensures o.response.Analyzed? ==> o.response.saved == SaveOf(ParseOrEmpty(reply.text, svc).value, svc).result.value
  {
    var call := [Generate(AnalyzeCase, parts)];
    match reply
    case Threw(_) => Outcome(Failed(500, FailureMessage), call)
    case Replied(text) =>
      match ParseOrEmpty(text, svc)
      case None => Outcome(Failed(500, FailureMessage), call)
      case Some(a) => SaveReply(parts, a, svc)
  }

  /** The save of a parsed reply, under its person name or the placeholder. */
  function SaveOf(a: AnalysisReply, svc: Services): Persistence.SaveStep {
    Persistence.Save(AnalyzeRoute.CaseNameFor(a.personName), a, svc.insertParent)
  }

  /** After the analysis request: the reply saved under its person name or
      the placeholder; a failed save is the same failure response. */
  function SaveReply(parts: seq<Part>, a: AnalysisReply, svc: Services): (o: Outcome)
    ensures |o.effects| >= 2 && o.effects[0] == Generate(AnalyzeCase, parts)
    ensures o.effects[1] == InsertParent(Rows.ParentRowOf(AnalyzeRoute.CaseNameFor(a.personName), a))
    ensures CountCalls(o.effects, AnalyzeCase) == 1
    ensures CountCalls(o.effects, TranscribeAudio) == 0
    ensures o.response.Failed? ==> o.response == Failed(500, FailureMessage)
    ensures o.response.Analyzed? <==> CountSaves(o.effects) == 1
    ensures o.response.Analyzed? ==> o.response.saved.caseName == AnalyzeRoute.CaseNameFor(a.personName)
    ensures o.response.Analyzed? <==> SaveOf(a, svc).result.Success?
    ensures o.response.Analyzed? ==> o.response.saved == SaveOf(a, svc).result.value
  {
    var call := [Generate(AnalyzeCase, parts)];
    var saved := Persistence.Save(AnalyzeRoute.CaseNameFor(a.personName), a, svc.insertParent);
    var effects := call + saved.effects;
    CountCallsAppend(call, saved.effects, AnalyzeCase);
    CountCallsAppend(call, saved.effects, TranscribeAudio);
    CountSavesAppend(call, saved.effects);
    match saved.result
    case Failure(_) => Outcome(Failed(500, FailureMessage), effects)
    case Success(v) => Outcome(Analyzed(v), effects)
  }

  /** A blank reply is saved as an empty analysis under the placeholder name:
      if the parent insert succeeds, that row stays behind with no children and
      the request still fails. */
  lemma BlankReplyLeavesPlaceholderRow(documents: string, pdfFiles: seq<UploadedFile>, audioFiles: seq<UploadedFile>, svc: Services)
    requires var reply := svc.generate(AnalyzeCase, SingleParts(documents, pdfFiles, audioFiles));
      reply.Replied? && ReplyText(reply.text) == ""
    ensures var o := Post(documents, pdfFiles, audioFiles, svc);
      && o.response == Failed(500, FailureMessage)
      && |o.effects| == 2
      && o.effects[1] == InsertParent(Rows.ParentRowOf(AnalyzeRoute.UnknownCase, EmptyReply))
      && CountSaves(o.effects) == 0
  {
    assert AnalyzeRoute.CaseNameFor(EmptyReply.personName) == AnalyzeRoute.UnknownCase;
  }
}
