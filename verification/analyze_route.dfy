/** The `/api/analyze` route: validation of the submission, fail-open
    detection of several people, the bulk/single branch, per-person selection
    of document files, transcription of audio, analysis requests and saves.
    Bulk mode runs the people one after another and the first failure ends the
    whole request. */
module AnalyzeRoute {
  import opened Wrappers
  import opened CaseTypes
  import opened Gateway
  import Strings
  import Prompts
  import Persistence
  import Seqs
  import Rows

  const EmptySubmissionMessage: string := "Please provide either text documents, files, or audio to analyze."
  const AnalysisFailedMessage: string := "Failed to get analysis from AI. Please check the input and try again."
  const SaveFailedMessage: string := "Failed to save analysis to database"
  const ErrorPrefix: string := "Failed to analyze documents: "
  const UnknownCase: string := "Unknown Case"

  /** The three form fields of a request. */
  datatype Submission = Submission(documents: string, pdfFiles: seq<UploadedFile>, audioFiles: seq<UploadedFile>)

  datatype Response =
    | ErrorResponse(status: nat, message: string)
    | BulkResponse(count: nat, analyses: seq<Persistence.Saved>)
    | SingleResponse(saved: Persistence.Saved)

  /** A response together with the calls made to produce it, in order. */
  datatype Outcome = Outcome(response: Response, effects: seq<Effect>)

  /** Blank text, no document file and no audio file. */
  predicate IsEmptySubmission(s: Submission) {
    Strings.Trim(s.documents) == "" && |s.pdfFiles| == 0 && |s.audioFiles| == 0
  }

  /** The request that transcribes one audio file inside an analysis. */
  function TranscriptionParts(audio: UploadedFile): seq<Part> {
    [InlineData(audio.mimeType, audio.bytes), Text(Prompts.AudioTranscriptionInstruction)]
  }

  /** `detectMultiplePeople`. Audio files are accepted and ignored. Every
      failure — an exception, an empty reply, an unparsable reply — yields the
      single-person default, so detection never fails; a reply that parses
      gives what it parses to. */
  function DetectMultiplePeople(documents: string, pdfFiles: seq<UploadedFile>, audioFiles: seq<UploadedFile>, svc: Services): (r: Step<Detection>)
    ensures r.result.Success?
    ensures r.effects == [Generate(DetectPeople, Prompts.DetectionParts(documents, pdfFiles))]
    ensures r.result.value != SinglePerson ==>
      var reply := svc.generate(DetectPeople, Prompts.DetectionParts(documents, pdfFiles));
      && reply.Replied?
      && ReplyText(reply.text) != ""
      && svc.parseDetection(ReplyText(reply.text)) == Some(r.result.value)
    ensures var reply := svc.generate(DetectPeople, Prompts.DetectionParts(documents, pdfFiles));
      reply.Replied? && ReplyText(reply.text) != "" && svc.parseDetection(ReplyText(reply.text)).Some? ==>
        Some(r.result.value) == svc.parseDetection(ReplyText(reply.text))
  {
    var parts := Prompts.DetectionParts(documents, pdfFiles);
    var detection :=
      match svc.generate(DetectPeople, parts)
      case Threw(_) => SinglePerson
      case Replied(text) =>
        if ReplyText(text) == "" then SinglePerson
        else svc.parseDetection(ReplyText(text)).GetOr(SinglePerson);
    Step(Success(detection), [Generate(DetectPeople, parts)])
  }

  /** Detection fails open: a thrown call, a blank reply and an unparsable
      reply all give the single-person default. */
  lemma DetectionFailsOpen(documents: string, pdfFiles: seq<UploadedFile>, audioFiles: seq<UploadedFile>, svc: Services)
    requires var reply := svc.generate(DetectPeople, Prompts.DetectionParts(documents, pdfFiles));
      || reply.Threw?
      || ReplyText(reply.text) == ""
      || svc.parseDetection(ReplyText(reply.text)).None?
    ensures DetectMultiplePeople(documents, pdfFiles, audioFiles, svc).result == Success(SinglePerson)
  {
  }

  const TranscriptionFailedPrefix: string := "Failed to transcribe audio file: "

  /** The transcription request for `audio` is answered rather than thrown. */
  predicate Heard(audio: UploadedFile, svc: Services) {
    svc.generate(TranscribeAudio, TranscriptionParts(audio)).Replied?
  }

  /** `transcribeAudioFile`: the trimmed reply, possibly empty; a thrown call
      becomes an error naming the file. */
  function TranscribeAudioFile(audio: UploadedFile, svc: Services): (r: Step<Prompts.Transcript>)
    ensures r.effects == [Generate(TranscribeAudio, TranscriptionParts(audio))]
    ensures r.result.Success? <==> Heard(audio, svc)
    ensures r.result.Failure? ==> r.result.error == TranscriptionFailedPrefix + audio.name
    ensures r.result.Success? ==>
      r.result.value == Prompts.Transcript(audio.name, ReplyText(svc.generate(TranscribeAudio, TranscriptionParts(audio)).text))
    ensures r.result.Success? ==> r.result.value.text == Strings.Trim(r.result.value.text)
  {
    var parts := TranscriptionParts(audio);
    var call := [Generate(TranscribeAudio, parts)];
    match svc.generate(TranscribeAudio, parts)
    case Threw(_) => Step(Failure(TranscriptionFailedPrefix + audio.name), call)
    case Replied(text) =>
      var t := ReplyText(text);
      TrimIsStable(t, text);
      Step(Success(Prompts.Transcript(audio.name, t)), call)
  }

  lemma TrimIsStable(t: string, text: Option<string>)
    requires t == ReplyText(text)
    ensures t == Strings.Trim(t)
  {
    if text.Some? {
      Strings.TrimOfTrimmed(t);
    }
  }

  /** Every audio file's transcription request is answered. */
  predicate AllHeard(audioFiles: seq<UploadedFile>, svc: Services) {
    forall i :: 0 <= i < |audioFiles| ==> Heard(audioFiles[i], svc)
  }

  /** The transcription requests for the audio files, in upload order. */
  function TranscriptionRequests(audioFiles: seq<UploadedFile>): seq<Effect> {
    seq(|audioFiles|, i requires 0 <= i < |audioFiles| => Generate(TranscribeAudio, TranscriptionParts(audioFiles[i])))
  }

  /** What the answers say, in upload order: each reply's trimmed text under
      its file's name. */
  function HeardTranscripts(audioFiles: seq<UploadedFile>, svc: Services): seq<Prompts.Transcript>
    requires AllHeard(audioFiles, svc)
  {
    seq(|audioFiles|, i requires 0 <= i < |audioFiles| =>
      Prompts.Transcript(audioFiles[i].name, ReplyText(svc.generate(TranscribeAudio, TranscriptionParts(audioFiles[i])).text)))
  }

  /** The audio files transcribed one after another. The first unanswered
      request stops the loop: no later file is sent, and the error names that
      file. */
  function TranscribeAll(audioFiles: seq<UploadedFile>, svc: Services): (r: Step<seq<Prompts.Transcript>>)
    ensures TranscribedInOrder(r, audioFiles, svc)
  {
    if |audioFiles| == 0 then Step(Success([]), [])
    else
      var first := TranscribeAudioFile(audioFiles[0], svc);
      if first.result.Failure? then Step(Failure(first.result.error), first.effects)
      else
        var rest := TranscribeAll(audioFiles[1..], svc);
        var r := match rest.result
          case Failure(e) => Step(Failure(e), first.effects + rest.effects)
          case Success(ts) => Step(Success([first.result.value] + ts), first.effects + rest.effects);
        TranscribedInOrderCons(audioFiles, svc, rest, r);
        r
  }

  /** What transcribing `audioFiles` in order gives: one request per file sent,
      in order; success exactly when every request is answered, with the
      transcripts the answers give; otherwise the last file sent is the first
      unanswered one, and the error names it. */
  predicate TranscribedInOrder(r: Step<seq<Prompts.Transcript>>, audioFiles: seq<UploadedFile>, svc: Services) {
    && TranscriptionCalls(r.effects, audioFiles)
    && (r.result.Success? <==> AllHeard(audioFiles, svc))
    && (r.result.Success? ==>
          r.result.value == HeardTranscripts(audioFiles, svc) && r.effects == TranscriptionRequests(audioFiles))
    && (r.result.Failure? ==>
          && 1 <= |r.effects|
          && AllHeard(audioFiles[..|r.effects| - 1], svc)
          && !Heard(audioFiles[|r.effects| - 1], svc)
          && r.result.error == TranscriptionFailedPrefix + audioFiles[|r.effects| - 1].name)
  }

  /** Transcribing the first file and then the rest in order is transcribing
      them all in order. */
  lemma TranscribedInOrderCons(audioFiles: seq<UploadedFile>, svc: Services, rest: Step<seq<Prompts.Transcript>>, r: Step<seq<Prompts.Transcript>>)
    requires |audioFiles| > 0 && Heard(audioFiles[0], svc)
    requires TranscribedInOrder(rest, audioFiles[1..], svc)
    requires r.effects == [Generate(TranscribeAudio, TranscriptionParts(audioFiles[0]))] + rest.effects
    requires rest.result.Failure? ==> r.result == rest.result
    requires rest.result.Success? ==>
      r.result == Success([TranscribeAudioFile(audioFiles[0], svc).result.value] + rest.result.value)
    ensures TranscribedInOrder(r, audioFiles, svc)
  {
    TranscriptionCallsCons(r.effects[..1], rest.effects, audioFiles);
    assert r.effects[..1] + rest.effects == r.effects;
    if rest.result.Failure? {
      AllHeardCons(audioFiles, |r.effects| - 1, svc);
      assert audioFiles[1..][|rest.effects| - 1] == audioFiles[|r.effects| - 1];
    } else {
      HeardTranscriptsCons(audioFiles, svc);
      CallsAreRequests(r.effects, audioFiles);
    }
  }

  /** The effects are transcription requests for the audio files, in order,
      one per file sent. */
  predicate TranscriptionCalls(effects: seq<Effect>, audioFiles: seq<UploadedFile>) {
    |effects| <= |audioFiles| &&
    forall i :: 0 <= i < |effects| ==> effects[i] == Generate(TranscribeAudio, TranscriptionParts(audioFiles[i]))
  }

  lemma TranscriptionCallsCons(first: seq<Effect>, rest: seq<Effect>, audioFiles: seq<UploadedFile>)
    requires |audioFiles| > 0 && first == [Generate(TranscribeAudio, TranscriptionParts(audioFiles[0]))]
    requires TranscriptionCalls(rest, audioFiles[1..])
    ensures TranscriptionCalls(first + rest, audioFiles)
  {
    forall i | 1 <= i < |first + rest|
      ensures (first + rest)[i] == Generate(TranscribeAudio, TranscriptionParts(audioFiles[i]))
    {
      assert (first + rest)[i] == rest[i - 1];
      assert audioFiles[1..][i - 1] == audioFiles[i];
    }
  }

  /** A request for every file, in order, is the whole list of requests. */
  lemma CallsAreRequests(effects: seq<Effect>, audioFiles: seq<UploadedFile>)
    requires TranscriptionCalls(effects, audioFiles) && |effects| == |audioFiles|
    ensures effects == TranscriptionRequests(audioFiles)
  {
  }

  /** The first file answered and the next `n - 1` answered: the first `n` answered. */
  lemma AllHeardCons(audioFiles: seq<UploadedFile>, n: nat, svc: Services)
    requires 1 <= n <= |audioFiles|
    requires Heard(audioFiles[0], svc) && AllHeard(audioFiles[1..][..n - 1], svc)
    ensures AllHeard(audioFiles[..n], svc)
  {
    forall i | 1 <= i < n
      ensures Heard(audioFiles[..n][i], svc)
    {
      assert audioFiles[1..][..n - 1][i - 1] == audioFiles[i];
    }
  }

  lemma HeardTranscriptsCons(audioFiles: seq<UploadedFile>, svc: Services)
    requires |audioFiles| > 0 && Heard(audioFiles[0], svc) && AllHeard(audioFiles[1..], svc)
    ensures AllHeard(audioFiles, svc)
    ensures HeardTranscripts(audioFiles, svc) ==
      [Prompts.Transcript(audioFiles[0].name, ReplyText(svc.generate(TranscribeAudio, TranscriptionParts(audioFiles[0])).text))]
      + HeardTranscripts(audioFiles[1..], svc)
  {
    forall i | 1 <= i < |audioFiles|
      ensures Heard(audioFiles[i], svc)
    {
      assert audioFiles[1..][i - 1] == audioFiles[i];
    }
    var whole := HeardTranscripts(audioFiles, svc);
    var head := [Prompts.Transcript(audioFiles[0].name, ReplyText(svc.generate(TranscribeAudio, TranscriptionParts(audioFiles[0])).text))];
    var tail := HeardTranscripts(audioFiles[1..], svc);
    forall i | 0 <= i < |whole|
      ensures whole[i] == (head + tail)[i]
    {
      if i > 0 {
        assert audioFiles[1..][i - 1] == audioFiles[i];
      }
    }
  }

  /** How an analysis reply is read: a thrown call, a blank reply and an
      unparsable reply are all the fixed analysis error. */
  function InterpretAnalysis(reply: OracleReply, svc: Services): (r: Result<AnalysisReply, string>)
    ensures r.Failure? ==> r.error == AnalysisFailedMessage
    ensures r.Success? <==>
      reply.Replied? && ReplyText(reply.text) != "" && svc.parseAnalysis(ReplyText(reply.text)).Some?
    ensures r.Success? ==> Some(r.value) == svc.parseAnalysis(ReplyText(reply.text))
  {
    match reply
    case Threw(_) => Failure(AnalysisFailedMessage)
    case Replied(text) =>
      if ReplyText(text) == "" then Failure(AnalysisFailedMessage)
      else match svc.parseAnalysis(ReplyText(text))
        case None => Failure(AnalysisFailedMessage)
        case Some(a) => Success(a)
  }

  /** `analyzeCaseDocuments`: transcribe every audio file, then one analysis
      request built from the free text, the transcripts the replies gave and
      the document files. Any failure on the way — an unanswered transcription,
      a thrown call, a blank reply, an unparsable reply — becomes the one fixed
      analysis error, and an unanswered transcription stops before the
      analysis request. */
  function AnalyzeCaseDocuments(documents: string, pdfFiles: seq<UploadedFile>, audioFiles: seq<UploadedFile>, svc: Services): (r: Step<AnalysisReply>)
    ensures r.result.Failure? ==> r.result.error == AnalysisFailedMessage
    ensures CountCalls(r.effects, AnalyzeCase) <= 1
    ensures CountSaves(r.effects) == 0
    ensures AllHeard(audioFiles, svc) ==>
      var parts := Prompts.AnalysisParts(documents, HeardTranscripts(audioFiles, svc), pdfFiles);
      && r.effects == TranscriptionRequests(audioFiles) + [Generate(AnalyzeCase, parts)]
      && r.result == InterpretAnalysis(svc.generate(AnalyzeCase, parts), svc)
    ensures !AllHeard(audioFiles, svc) ==>
      && r.result.Failure?
      && TranscriptionCalls(r.effects, audioFiles)
      && CountCalls(r.effects, AnalyzeCase) == 0
    // without audio: exactly one analysis request, whose reply decides the result
    ensures |audioFiles| == 0 ==>
      var parts := Prompts.AnalysisParts(documents, [], pdfFiles);
      && r.effects == [Generate(AnalyzeCase, parts)]
      && r.result == InterpretAnalysis(svc.generate(AnalyzeCase, parts), svc)
  {
    var transcribed := TranscribeAll(audioFiles, svc);
    CountSavesOfCalls(transcribed.effects, audioFiles);
    assert CountCalls(transcribed.effects, AnalyzeCase) == 0 by {
      OnlyTranscriptionCalls(transcribed.effects, audioFiles);
    }
    match transcribed.result
    case Failure(_) => Step(Failure(AnalysisFailedMessage), transcribed.effects)
    case Success(transcripts) =>
      var parts := Prompts.AnalysisParts(documents, transcripts, pdfFiles);
      var call := [Generate(AnalyzeCase, parts)];
      CountCallsAppend(transcribed.effects, call, AnalyzeCase);
      CountSavesAppend(transcribed.effects, call);
      Step(InterpretAnalysis(svc.generate(AnalyzeCase, parts), svc), transcribed.effects + call)
  }

  lemma {:induction false} OnlyTranscriptionCalls(effects: seq<Effect>, audioFiles: seq<UploadedFile>)
    requires TranscriptionCalls(effects, audioFiles)
    ensures CountCalls(effects, AnalyzeCase) == 0
  {
  }

  lemma {:induction false} CountSavesOfCalls(effects: seq<Effect>, audioFiles: seq<UploadedFile>)
    requires TranscriptionCalls(effects, audioFiles)
    ensures CountSaves(effects) == 0
  {
    if |effects| > 0 {
      CountSavesOfCalls(effects[1..], audioFiles[1..]);
    }
  }

  /** `person.fileIndices.map(idx => pdfFiles[idx]).filter(f => f !== undefined)`:
      indices into the document files only; an index with no file is dropped,
      the others keep their order, repeats included. */
  function SelectFiles(pdfFiles: seq<UploadedFile>, indices: seq<int>): (r: seq<UploadedFile>)
    ensures |r| <= |indices|
    ensures forall j :: 0 <= j < |r| ==> r[j] in pdfFiles
    ensures (forall j :: 0 <= j < |indices| ==> 0 <= indices[j] < |pdfFiles|) ==>
      |r| == |indices| && forall j :: 0 <= j < |indices| ==> r[j] == pdfFiles[indices[j]]
  {
    if |indices| == 0 then []
    else
      var rest := SelectFiles(pdfFiles, indices[1..]);
      if 0 <= indices[0] < |pdfFiles| then
        var r := [pdfFiles[indices[0]]] + rest;
        assert forall j :: 1 <= j < |r| ==> r[j] == rest[j - 1];
        r
      else rest
  }

  predicate InRange(n: nat, i: int) {
    0 <= i < n
  }

  /** Selection distributes over concatenation of index lists. */
  lemma {:induction false} SelectFilesAppend(pdfFiles: seq<UploadedFile>, a: seq<int>, b: seq<int>)
    ensures SelectFiles(pdfFiles, a + b) == SelectFiles(pdfFiles, a) + SelectFiles(pdfFiles, b)
  {
    if |a| == 0 {
      assert a + b == b;
    } else {
      assert (a + b)[1..] == a[1..] + b;
      SelectFilesAppend(pdfFiles, a[1..], b);
    }
  }

  /** Indices with no file contribute nothing: selecting with them is
      selecting with only the in-range indices, which all produce a file. */
  lemma {:induction false} SelectFilesIgnoresMissing(pdfFiles: seq<UploadedFile>, indices: seq<int>)
    ensures SelectFiles(pdfFiles, indices) == SelectFiles(pdfFiles, Seqs.Filter(indices, i => InRange(|pdfFiles|, i)))
    ensures |SelectFiles(pdfFiles, indices)| == |Seqs.Filter(indices, i => InRange(|pdfFiles|, i))|
  {
    var keep := i => InRange(|pdfFiles|, i);
    var kept := Seqs.Filter(indices, keep);
    if |indices| > 0 {
      var head := if keep(indices[0]) then [indices[0]] else [];
      assert indices == [indices[0]] + indices[1..];
      SelectFilesIgnoresMissing(pdfFiles, indices[1..]);
      assert kept == head + Seqs.Filter(indices[1..], keep);
      SelectFilesAppend(pdfFiles, head, Seqs.Filter(indices[1..], keep));
      assert SelectFiles(pdfFiles, head) == (if keep(indices[0]) then [pdfFiles[indices[0]]] else []) by {
        if keep(indices[0]) {
          assert head[1..] == [];
        }
      }
    }
  }

  /** The analysis request for one person of a bulk run: no free text, no
      transcript, only the person's selected document files. */
  function PersonRequest(person: PersonGroup, pdfFiles: seq<UploadedFile>): Effect {
    Generate(AnalyzeCase, Prompts.AnalysisParts("", [], SelectFiles(pdfFiles, person.fileIndices)))
  }

  /** One person of a bulk request: an analysis of their selected files with
      no free text and no audio, then a save under the detected name. */
  function AnalyzePerson(person: PersonGroup, pdfFiles: seq<UploadedFile>, svc: Services): (r: Step<Persistence.Saved>)
    ensures |r.effects| >= 1
    ensures r.effects[0] == PersonRequest(person, pdfFiles)
    ensures CountCalls(r.effects, TranscribeAudio) == 0
    ensures CountSaves(r.effects) == (if r.result.Success? then 1 else 0)
    ensures r.result.Failure? ==> r.result.error == AnalysisFailedMessage || r.result.error == SaveFailedMessage
    ensures r.result.Success? ==> r.result.value.caseName == person.name
    ensures NoCallsAfterFirst(r.effects)
  {
    var analysis := AnalyzeCaseDocuments("", SelectFiles(pdfFiles, person.fileIndices), [], svc);
    match analysis.result
    case Failure(e) => Step(Failure(e), analysis.effects)
    case Success(a) =>
      var saved := Persistence.Save(person.name, a, svc.insertParent);
      var effects := analysis.effects + saved.effects;
      SaveMakesNoCall(person.name, a, svc.insertParent);
      NoCallsAfter(analysis.effects[0], saved.effects);
      CountCallsAppend(analysis.effects, saved.effects, TranscribeAudio);
      CountSavesAppend(analysis.effects, saved.effects);
      match saved.result
      case Failure(_) => Step(Failure(SaveFailedMessage), effects)
      case Success(v) => Step(Success(v), effects)
  }

  /** None of the effects is a call to the model. */
  predicate NoCalls(effects: seq<Effect>) {
    forall i :: 0 <= i < |effects| ==> !effects[i].Generate?
  }

  /** No effect after the first is a call to the model. */
  predicate NoCallsAfterFirst(effects: seq<Effect>) {
    forall i :: 1 <= i < |effects| ==> !effects[i].Generate?
  }

  lemma NoCallsAfter(call: Effect, rest: seq<Effect>)
    requires NoCalls(rest)
    ensures NoCallsAfterFirst([call] + rest)
  {
    forall i | 1 <= i < |[call] + rest|
      ensures !([call] + rest)[i].Generate?
    {
      assert ([call] + rest)[i] == rest[i - 1];
    }
  }

  /** A save only writes rows. */
  lemma SaveMakesNoCall(caseName: string, a: AnalysisReply, insertParent: Rows.ParentRow -> Option<string>)
    ensures NoCalls(Persistence.Save(caseName, a, insertParent).effects)
  {
  }

  /** Each person's analysis and save, taken on its own. */
  function PersonRuns(people: seq<PersonGroup>, pdfFiles: seq<UploadedFile>, svc: Services): (runs: seq<Step<Persistence.Saved>>)
    ensures |runs| == |people|
    ensures forall i :: 0 <= i < |people| ==> runs[i] == AnalyzePerson(people[i], pdfFiles, svc)
  {
    if |people| == 0 then [] else [AnalyzePerson(people[0], pdfFiles, svc)] + PersonRuns(people[1..], pdfFiles, svc)
  }

  /** What every person's run does: their analysis request first and no call
      after it, and the outcome facts below. */
  predicate RunFacts(run: Step<Persistence.Saved>, person: PersonGroup, pdfFiles: seq<UploadedFile>) {
    && CallsFirstOnly(run)
    && run.effects[0] == PersonRequest(person, pdfFiles)
    && RunOutcome(run, person)
  }

  /** A save exactly on success, under the person's name, no transcription,
      and one of the two fixed errors. */
  predicate RunOutcome(run: Step<Persistence.Saved>, person: PersonGroup) {
    && SavesOnSuccess(run)
    && CountCalls(run.effects, TranscribeAudio) == 0
    && (run.result.Success? ==> run.result.value.caseName == person.name)
    && (run.result.Failure? ==> IsRunError(run.result.error))
  }

  lemma {:induction false} PersonRunsFacts(people: seq<PersonGroup>, pdfFiles: seq<UploadedFile>, svc: Services)
    ensures forall i :: 0 <= i < |people| ==> RunFacts(PersonRuns(people, pdfFiles, svc)[i], people[i], pdfFiles)
  {
    if |people| > 0 {
      var runs := PersonRuns(people, pdfFiles, svc);
      var tail := PersonRuns(people[1..], pdfFiles, svc);
      assert runs == [AnalyzePerson(people[0], pdfFiles, svc)] + tail;
      PersonRunFacts(people[0], pdfFiles, svc);
      PersonRunsFacts(people[1..], pdfFiles, svc);
      forall i | 0 <= i < |people|
        ensures RunFacts(runs[i], people[i], pdfFiles)
      {
        if i > 0 {
          assert runs[i] == tail[i - 1];
          assert people[1..][i - 1] == people[i];
        }
      }
    }
  }

  lemma PersonRunFacts(person: PersonGroup, pdfFiles: seq<UploadedFile>, svc: Services)
    ensures RunFacts(AnalyzePerson(person, pdfFiles, svc), person, pdfFiles)
  {
  }

  /** The bulk loop: the people in detection order, one at a time. The first
      failure ends the loop and the request: the people after it are never
      analysed or saved, and its error is the loop's. */
  function RunBulk(people: seq<PersonGroup>, pdfFiles: seq<UploadedFile>, svc: Services): (r: Step<seq<Persistence.Saved>>)
    ensures var runs := PersonRuns(people, pdfFiles, svc);
      && (r.result.Success? <==> FirstFailed(runs) == |people|)
      && r.effects == Sequenced(runs[..Reached(runs)])
      && (r.result.Success? ==>
            && |r.result.value| == |people|
            && forall i :: 0 <= i < |people| ==> r.result.value[i] == runs[i].result.value)
      && (r.result.Failure? ==>
            && r.result.error == runs[FirstFailed(runs)].result.error
            && CountSaves(r.effects) == FirstFailed(runs))
    ensures r.result.Success? ==> SavedFor(r.result.value, people) && CountSaves(r.effects) == |people|
    ensures r.result.Failure? ==> r.result.error == AnalysisFailedMessage || r.result.error == SaveFailedMessage
    ensures CountCalls(r.effects, TranscribeAudio) == 0
  {
    var r := RunUntilFailure(PersonRuns(people, pdfFiles, svc));
    BulkRunFacts(people, pdfFiles, svc);
    r
  }

  lemma BulkRunFacts(people: seq<PersonGroup>, pdfFiles: seq<UploadedFile>, svc: Services)
    ensures var runs := PersonRuns(people, pdfFiles, svc);
      var r := RunUntilFailure(runs);
      && (r.result.Success? ==> SavedFor(r.result.value, people) && CountSaves(r.effects) == |people|)
      && (r.result.Failure? ==> CountSaves(r.effects) == FirstFailed(runs))
      && (r.result.Failure? ==> r.result.error == AnalysisFailedMessage || r.result.error == SaveFailedMessage)
      && CountCalls(r.effects, TranscribeAudio) == 0
  {
    var runs := PersonRuns(people, pdfFiles, svc);
    PersonRunsFacts(people, pdfFiles, svc);
    assert forall i :: 0 <= i < |people| ==> RunOutcome(runs[i], people[i]);
    BulkSaves(runs, people);
    BulkTranscribesNothing(runs, people);
    BulkSavedFor(runs, people);
    BulkErrors(runs, people);
  }

  /** Runs that each save once on success and make no transcription call
      save once per person before the first failure, and transcribe nothing. */
  lemma BulkSaves(runs: seq<Step<Persistence.Saved>>, people: seq<PersonGroup>)
    requires |runs| == |people|
    requires forall i :: 0 <= i < |people| ==> RunOutcome(runs[i], people[i])
    ensures CountSaves(RunUntilFailure(runs).effects) == FirstFailed(runs)
  {
    SavesUntilFailure(runs);
  }

  lemma BulkTranscribesNothing(runs: seq<Step<Persistence.Saved>>, people: seq<PersonGroup>)
    requires |runs| == |people|
    requires forall i :: 0 <= i < |people| ==> RunOutcome(runs[i], people[i])
    ensures CountCalls(RunUntilFailure(runs).effects, TranscribeAudio) == 0
  {
    NoCallsUntilFailure(runs, TranscribeAudio);
  }

  /** A loop over such runs that completes returns every person's saved
      record, under their name. */
  lemma BulkSavedFor(runs: seq<Step<Persistence.Saved>>, people: seq<PersonGroup>)
    requires |runs| == |people|
    requires forall i :: 0 <= i < |people| ==> RunOutcome(runs[i], people[i])
    ensures RunUntilFailure(runs).result.Success? ==> SavedFor(RunUntilFailure(runs).result.value, people)
  {
  }

  /** A loop over such runs that stops fails with one of the two errors. */
  lemma BulkErrors(runs: seq<Step<Persistence.Saved>>, people: seq<PersonGroup>)
    requires |runs| == |people|
    requires forall i :: 0 <= i < |people| ==> RunOutcome(runs[i], people[i])
    ensures RunUntilFailure(runs).result.Failure? ==> IsRunError(RunUntilFailure(runs).result.error)
  {
    ErrorsUntilFailure(runs, IsRunError);
  }

  predicate IsRunError(e: string) {
    e == AnalysisFailedMessage || e == SaveFailedMessage
  }

  /** The calls of a bulk run, in order, are the analysis requests of the
      people it reaches: one per person, and nothing after the first failure. */
  lemma BulkRequestsInOrder(people: seq<PersonGroup>, pdfFiles: seq<UploadedFile>, svc: Services)
    ensures var n := Reached(PersonRuns(people, pdfFiles, svc));
      Seqs.Filter(RunBulk(people, pdfFiles, svc).effects, IsCall) == Seqs.Map(people[..n], p => PersonRequest(p, pdfFiles))
  {
    var runs := PersonRuns(people, pdfFiles, svc);
    PersonRunsFacts(people, pdfFiles, svc);
    RequestsInOrder(runs, people, pdfFiles, Reached(runs));
  }

  lemma RequestsInOrder(runs: seq<Step<Persistence.Saved>>, people: seq<PersonGroup>, pdfFiles: seq<UploadedFile>, n: nat)
    requires |runs| == |people| && n <= |people|
    requires forall i :: 0 <= i < |people| ==> RunFacts(runs[i], people[i], pdfFiles)
    ensures Seqs.Filter(Sequenced(runs[..n]), IsCall) == Seqs.Map(people[..n], p => PersonRequest(p, pdfFiles))
  {
    CallsSequenced(runs[..n]);
    var calls := Seqs.Filter(Sequenced(runs[..n]), IsCall);
    var requests := Seqs.Map(people[..n], p => PersonRequest(p, pdfFiles));
    forall i | 0 <= i < n
      ensures calls[i] == requests[i]
    {
      assert runs[..n][i] == runs[i];
    }
  }

  /** One saved analysis per person, named after them, in detection order. */
  predicate SavedFor(vs: seq<Persistence.Saved>, people: seq<PersonGroup>) {
    |vs| == |people| && forall i :: 0 <= i < |vs| ==> vs[i].caseName == people[i].name
  }

  /** Several people are analysed separately only when detection says so and
      names more than one person. */
  predicate IsBulk(d: Detection) {
    d.multiplePeople && |d.people| > 1
  }

  /** `analysisResult.personName || 'Unknown Case'`: a missing or empty
      person name falls back to the placeholder. */
  function CaseNameFor(personName: Option<string>): (name: string)
    ensures name != ""
    ensures personName.Some? && personName.value != "" ==> name == personName.value
    ensures name != UnknownCase ==> personName == Some(name)
  {
    if personName.Some? && personName.value != "" then personName.value else UnknownCase
  }

  /** The response and effects that follow detection `d`: with several people,
      the bulk loop's saved records or its first error; otherwise the single
      case's saved record or its error. Either error is a 500 under the
      route's prefix. */
  predicate Decided(o: Outcome, sub: Submission, d: Detection, svc: Services) {
    if IsBulk(d) then
      var bulk := RunBulk(d.people, sub.pdfFiles, svc);
      && o.effects == bulk.effects
      && (bulk.result.Success? ==> o.response == BulkResponse(|d.people|, bulk.result.value))
      && (bulk.result.Failure? ==> o.response == ErrorResponse(500, ErrorPrefix + bulk.result.error))
    else
      var single := SingleCase(sub, svc);
      && o.effects == single.effects
      && (single.result.Success? ==> o.response == SingleResponse(single.result.value))
      && (single.result.Failure? ==> o.response == ErrorResponse(500, ErrorPrefix + single.result.error))
  }

  /** `POST /api/analyze`. */
  function Post(sub: Submission, svc: Services): (o: Outcome)
    ensures o.response == ErrorResponse(400, EmptySubmissionMessage) <==> IsEmptySubmission(sub)
    ensures IsEmptySubmission(sub) ==> o.effects == []
    ensures !IsEmptySubmission(sub) ==>
      && |o.effects| >= 1
      && o.effects[0] == Generate(DetectPeople, Prompts.DetectionParts(sub.documents, sub.pdfFiles))
      && Decided(Outcome(o.response, o.effects[1..]), sub, DetectMultiplePeople(sub.documents, sub.pdfFiles, sub.audioFiles, svc).result.value, svc)
    ensures o.response.ErrorResponse? && o.response.status != 400 ==>
      && o.response.status == 500
      && (o.response.message == ErrorPrefix + AnalysisFailedMessage || o.response.message == ErrorPrefix + SaveFailedMessage)
    ensures o.response.BulkResponse? ==> o.response.count == |o.response.analyses| == CountSaves(o.effects)
    ensures o.response.SingleResponse? ==> CountSaves(o.effects) == 1
  {
    if IsEmptySubmission(sub) then Outcome(ErrorResponse(400, EmptySubmissionMessage), [])
    else DetectThenAnalyze(sub, svc)
  }

  /** A submission with something in it: detection, then the path it picks. */
  function DetectThenAnalyze(sub: Submission, svc: Services): (o: Outcome)
    ensures |o.effects| >= 1 && o.effects[0] == Generate(DetectPeople, Prompts.DetectionParts(sub.documents, sub.pdfFiles))
    ensures Decided(Outcome(o.response, o.effects[1..]), sub, DetectMultiplePeople(sub.documents, sub.pdfFiles, sub.audioFiles, svc).result.value, svc)
    ensures o.response.ErrorResponse? ==>
      && o.response.status == 500
      && (o.response.message == ErrorPrefix + AnalysisFailedMessage || o.response.message == ErrorPrefix + SaveFailedMessage)
    ensures o.response.BulkResponse? ==> o.response.count == |o.response.analyses| == CountSaves(o.effects)
    ensures o.response.SingleResponse? ==> CountSaves(o.effects) == 1
  {
    var detected := DetectMultiplePeople(sub.documents, sub.pdfFiles, sub.audioFiles, svc);
    var rest := AfterDetection(sub, detected.result.value, svc);
    var effects := detected.effects + rest.effects;
    assert CountSaves(effects) == CountSaves(rest.effects) by {
      CountSavesAppend(detected.effects, rest.effects);
    }
    assert effects[1..] == rest.effects;
    Outcome(rest.response, effects)
  }

  /** The bulk or the single path, as the detection decides. */
  function AfterDetection(sub: Submission, detection: Detection, svc: Services): (o: Outcome)
    ensures Decided(o, sub, detection, svc)
    ensures o.response.ErrorResponse? ==>
      && o.response.status == 500
      && (o.response.message == ErrorPrefix + AnalysisFailedMessage || o.response.message == ErrorPrefix + SaveFailedMessage)
    ensures o.response.BulkResponse? ==> IsBulk(detection) && o.response.count == |o.response.analyses| == CountSaves(o.effects)
    ensures o.response.SingleResponse? ==> !IsBulk(detection) && CountSaves(o.effects) == 1
  {
    if IsBulk(detection) then BulkBranch(detection.people, sub.pdfFiles, svc) else SingleBranch(sub, svc)
  }

  /** What follows a detection of several people: the bulk response exactly
      when every person was analysed and saved, else the first error. */
  function BulkBranch(people: seq<PersonGroup>, pdfFiles: seq<UploadedFile>, svc: Services): (o: Outcome)
    ensures o.effects == RunBulk(people, pdfFiles, svc).effects
    ensures o.response.BulkResponse? <==> RunBulk(people, pdfFiles, svc).result.Success?
    ensures o.response.BulkResponse? ==>
      && o.response.analyses == RunBulk(people, pdfFiles, svc).result.value
      && o.response.count == |o.response.analyses| == |people| == CountSaves(o.effects)
      && SavedFor(o.response.analyses, people)
    ensures !o.response.BulkResponse? ==>
      o.response == ErrorResponse(500, ErrorPrefix + RunBulk(people, pdfFiles, svc).result.error)
    ensures o.response.ErrorResponse? ==>
      && o.response.status == 500
      && (o.response.message == ErrorPrefix + AnalysisFailedMessage || o.response.message == ErrorPrefix + SaveFailedMessage)
  {
    var bulk := RunBulk(people, pdfFiles, svc);
    match bulk.result
    case Failure(e) => Outcome(ErrorResponse(500, ErrorPrefix + e), bulk.effects)
    case Success(saved) => Outcome(BulkResponse(|saved|, saved), bulk.effects)
  }

  /** What follows a detection of at most one person: the single response
      exactly when the case was analysed and saved, else its error. */
  function SingleBranch(sub: Submission, svc: Services): (o: Outcome)
    ensures o.effects == SingleCase(sub, svc).effects
    ensures o.response.SingleResponse? <==> SingleCase(sub, svc).result.Success?
    ensures o.response.SingleResponse? ==> o.response.saved == SingleCase(sub, svc).result.value && CountSaves(o.effects) == 1
    ensures !o.response.SingleResponse? ==>
      o.response == ErrorResponse(500, ErrorPrefix + SingleCase(sub, svc).result.error)
    ensures o.response.ErrorResponse? ==>
      && o.response.status == 500
      && (o.response.message == ErrorPrefix + AnalysisFailedMessage || o.response.message == ErrorPrefix + SaveFailedMessage)
  {
    var single := SingleCase(sub, svc);
    match single.result
    case Failure(e) => Outcome(ErrorResponse(500, ErrorPrefix + e), single.effects)
    case Success(saved) => Outcome(SingleResponse(saved), single.effects)
  }

  /** The single-person path: analyse everything submitted, then save under
      the reply's person name or the placeholder. It succeeds exactly when
      the analysis and then the save succeed, with the saved record; the
      save happens only after a successful analysis. */
  function SingleCase(sub: Submission, svc: Services): (r: Step<Persistence.Saved>)
    ensures var a := AnalyzeCaseDocuments(sub.documents, sub.pdfFiles, sub.audioFiles, svc);
      && (a.result.Failure? ==> r == Step(Failure(AnalysisFailedMessage), a.effects))
      && (a.result.Success? ==>
            var saved := Persistence.Save(CaseNameFor(a.result.value.personName), a.result.value, svc.insertParent);
            && r.effects == a.effects + saved.effects
            && (r.result.Success? <==> saved.result.Success?)
            && (r.result.Success? ==> r.result.value == saved.result.value)
            && (r.result.Failure? ==> r.result.error == SaveFailedMessage))
    ensures CountSaves(r.effects) == (if r.result.Success? then 1 else 0)
    ensures r.result.Success? ==>
      exists i :: 0 <= i < |r.effects| && r.effects[i].InsertParent? &&
        r.effects[i].row.caseName == r.result.value.caseName == CaseNameFor(r.effects[i].row.personName)
  {
    var analysis := AnalyzeCaseDocuments(sub.documents, sub.pdfFiles, sub.audioFiles, svc);
    match analysis.result
    case Failure(e) => Step(Failure(e), analysis.effects)
    case Success(a) =>
      var saved := Persistence.Save(CaseNameFor(a.personName), a, svc.insertParent);
      var effects := analysis.effects + saved.effects;
      CountSavesAppend(analysis.effects, saved.effects);
      assert effects[|analysis.effects|] == saved.effects[0];
      match saved.result
      case Failure(_) => Step(Failure(SaveFailedMessage), effects)
      case Success(v) => Step(Success(v), effects)
  }

  /** The branch taken follows the detection, both ways: after a multi-person
      detection the answer is the bulk response exactly when the bulk loop
      saved everyone, with one record per detected person in order and under
      their names; after any other detection it is the single response
      exactly when the single case was saved. */
  lemma BulkIffSeveralPeople(sub: Submission, svc: Services)
    requires !IsEmptySubmission(sub)
    ensures var d := DetectMultiplePeople(sub.documents, sub.pdfFiles, sub.audioFiles, svc).result.value;
      var o := Post(sub, svc);
      && (o.response.BulkResponse? ==> IsBulk(d))
      && (o.response.SingleResponse? ==> !IsBulk(d))
      && (IsBulk(d) ==> (o.response.BulkResponse? <==> RunBulk(d.people, sub.pdfFiles, svc).result.Success?))
      && (!IsBulk(d) ==> (o.response.SingleResponse? <==> SingleCase(sub, svc).result.Success?))
      && (o.response.BulkResponse? ==>
            && o.response.count == |d.people|
            && forall i :: 0 <= i < |d.people| ==> o.response.analyses[i].caseName == d.people[i].name)
  {
    var d := DetectMultiplePeople(sub.documents, sub.pdfFiles, sub.audioFiles, svc).result.value;
    if IsBulk(d) {
      var bulk := RunBulk(d.people, sub.pdfFiles, svc);
      assert bulk.result.Success? ==> SavedFor(bulk.result.value, d.people);
    }
  }

  /** A bulk request sends neither the free text nor the audio files to the
      analysis requests, and transcribes nothing: after detection, its calls
      are the analysis requests of the people it reached, in order, each
      holding only that person's document files. */
  lemma BulkSendsOnlyDocumentFiles(sub: Submission, svc: Services)
    requires !IsEmptySubmission(sub)
    requires IsBulk(DetectMultiplePeople(sub.documents, sub.pdfFiles, sub.audioFiles, svc).result.value)
    ensures var d := DetectMultiplePeople(sub.documents, sub.pdfFiles, sub.audioFiles, svc).result.value;
      var o := Post(sub, svc);
      var n := Reached(PersonRuns(d.people, sub.pdfFiles, svc));
      && CountCalls(o.effects, TranscribeAudio) == 0
      && Seqs.Filter(o.effects[1..], IsCall) == Seqs.Map(d.people[..n], p => PersonRequest(p, sub.pdfFiles))
  {
    var d := DetectMultiplePeople(sub.documents, sub.pdfFiles, sub.audioFiles, svc);
    var bulk := RunBulk(d.result.value.people, sub.pdfFiles, svc);
    CountCallsAppend(d.effects, bulk.effects, TranscribeAudio);
    assert Post(sub, svc).effects[1..] == bulk.effects;
    BulkRequestsInOrder(d.result.value.people, sub.pdfFiles, svc);
  }

  /** When detection finds at most one person the request is analysed as one
      case with everything submitted, exactly as if detection had failed. */
  lemma SinglePathUsesEverything(sub: Submission, svc: Services)
    requires !IsEmptySubmission(sub)
    requires !IsBulk(DetectMultiplePeople(sub.documents, sub.pdfFiles, sub.audioFiles, svc).result.value)
    ensures Post(sub, svc).effects[1..] == SingleCase(sub, svc).effects
  {
    var d := DetectMultiplePeople(sub.documents, sub.pdfFiles, sub.audioFiles, svc);
    assert Post(sub, svc).effects == d.effects + SingleCase(sub, svc).effects;
  }
}
