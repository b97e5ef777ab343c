/** The `/api/transcribe` route: request checks, the speaker-diarised
    transcription request, validation of the reply's entries, the plain-text
    transcript and the summary fields of the response. */
module TranscribeRoute {
  import opened Wrappers
  import opened Gateway
  import Json
  import Strings
  import Seqs
  import Prompts

  /** One segment of speech. */
  datatype TranscriptionEntry = TranscriptionEntry(timestamp: string, speaker: string, dialogue: string)

  /** The six accepted audio MIME types (also the audio filter of the upload form). */
  const AcceptedAudioTypes: seq<string> := ["audio/mpeg", "audio/wav", "audio/mp4", "audio/x-m4a", "audio/webm", "audio/ogg"]

  /** 50 MiB. */
  const MaxAudioSize: nat := 50 * 1024 * 1024

  const NoFileMessage: string := "No audio file provided"
  const UnsupportedFormatMessage: string := "Unsupported audio format. Accepted formats: MP3, WAV, M4A, WEBM, OGG"
  const TooLargeMessage: string := "Audio file too large. Maximum size is 50MB"
  const EmptyReplyMessage: string := "Empty response from AI"
  const UnexpectedFormatMessage: string := "The AI returned a response in an unexpected format"
  const InvalidKeyMessage: string := "Invalid API key configuration"
  const InvalidKeyMarker: string := "API key not valid"
  const FailurePrefix: string := "Failed to transcribe audio: "
  const TranscriptHeader: string := "=== AUDIO TRANSCRIPT ===\n\n"
  const TranscriptFooter: string := "\n=== END OF TRANSCRIPT ==="
  const NoDuration: string := "00:00:00"

  const SpeakerInstruction: string :=
    "Transcribe with speaker diarization: role labels when identifiable, else Speaker 1, Speaker 2; HH:MM:SS timestamps; verbatim; answer with a JSON array."

  /** `entry && typeof entry.timestamp === 'string' && ...`: an object whose
      three fields are strings. */
  predicate IsValidEntry(v: Json.Json) {
    && Json.HasStringField(v, "timestamp")
    && Json.HasStringField(v, "speaker")
    && Json.HasStringField(v, "dialogue")
  }

  function EntryOf(v: Json.Json): TranscriptionEntry
    requires IsValidEntry(v)
  {
    TranscriptionEntry(v.fields["timestamp"].s, v.fields["speaker"].s, v.fields["dialogue"].s)
  }

  /** The valid elements of the reply array, as entries, in their original order. */
  function ValidEntries(items: seq<Json.Json>): (r: seq<TranscriptionEntry>)
    ensures |r| <= |items|
    ensures |r| == 0 <==> forall i :: 0 <= i < |items| ==> !IsValidEntry(items[i])
    ensures forall k :: 0 <= k < |r| ==>
      exists i :: 0 <= i < |items| && IsValidEntry(items[i]) && r[k] == EntryOf(items[i])
  {
    if |items| == 0 then []
    else
      var rest := ValidEntries(items[1..]);
      if IsValidEntry(items[0]) then
        var r := [EntryOf(items[0])] + rest;
        forall k | 1 <= k < |r|
          ensures exists i :: 0 <= i < |items| && IsValidEntry(items[i]) && r[k] == EntryOf(items[i])
        {
          var i :| 0 <= i < |items[1..]| && IsValidEntry(items[1..][i]) && rest[k - 1] == EntryOf(items[1..][i]);
          assert items[1..][i] == items[i + 1];
        }
        r
      else
        forall k | 0 <= k < |rest|
          ensures exists i :: 0 <= i < |items| && IsValidEntry(items[i]) && rest[k] == EntryOf(items[i])
        {
          var i :| 0 <= i < |items[1..]| && IsValidEntry(items[1..][i]) && rest[k] == EntryOf(items[1..][i]);
          assert items[1..][i] == items[i + 1];
        }
        rest
  }

  /** Validation distributes over concatenation, so the entries keep the
      reply's order. */
  lemma {:induction false} ValidEntriesAppend(a: seq<Json.Json>, b: seq<Json.Json>)
    ensures ValidEntries(a + b) == ValidEntries(a) + ValidEntries(b)
  {
    if |a| == 0 {
      assert a + b == b;
    } else {
      assert (a + b)[1..] == a[1..] + b;
      ValidEntriesAppend(a[1..], b);
    }
  }

  /** A reply whose elements are all valid loses none of them. */
  lemma {:induction false} AllValidKept(items: seq<Json.Json>)
    requires forall i :: 0 <= i < |items| ==> IsValidEntry(items[i])
    ensures |ValidEntries(items)| == |items|
    ensures forall i :: 0 <= i < |items| ==> ValidEntries(items)[i] == EntryOf(items[i])
  {
    if |items| > 0 {
      AllValidKept(items[1..]);
      assert forall i :: 1 <= i < |items| ==> items[1..][i - 1] == items[i];
    }
  }

  /** The outer catch: messages that mention an invalid key are replaced, all
      others are prefixed. */
  function OuterMessage(m: string): (r: string)
    ensures Strings.Contains(m, InvalidKeyMarker) <==> r == InvalidKeyMessage
    ensures !Strings.Contains(m, InvalidKeyMarker) ==> r == FailurePrefix + m
  {
    if Strings.Contains(m, InvalidKeyMarker) then InvalidKeyMessage
    else
      assert (FailurePrefix + m)[0] == 'F';
      FailurePrefix + m
  }

  function SpeakerTranscriptionParts(audio: UploadedFile): seq<Part> {
    [InlineData(audio.mimeType, audio.bytes), Text(SpeakerInstruction)]
  }

  /** `transcribeAudioWithSpeakers`. */
  function TranscribeWithSpeakers(audio: UploadedFile, svc: Services): (r: Step<seq<TranscriptionEntry>>)
    ensures r.effects == [Generate(TranscribeSpeakers, SpeakerTranscriptionParts(audio))]
    ensures r.result.Success? ==> |r.result.value| > 0
    ensures var reply := svc.generate(TranscribeSpeakers, SpeakerTranscriptionParts(audio));
      r.result.Success? <==>
        && reply.Replied?
        && ReplyText(reply.text) != ""
        && svc.parseJson(ReplyText(reply.text)).Some?
        && svc.parseJson(ReplyText(reply.text)).value.JArray?
        && |ValidEntries(svc.parseJson(ReplyText(reply.text)).value.items)| > 0
    ensures r.result.Success? ==>
      var reply := svc.generate(TranscribeSpeakers, SpeakerTranscriptionParts(audio));
      r.result.value == ValidEntries(svc.parseJson(ReplyText(reply.text)).value.items)
    // a thrown call keeps its message; the two inner failures are fixed messages
    ensures r.result.Failure? ==>
      var reply := svc.generate(TranscribeSpeakers, SpeakerTranscriptionParts(audio));
      r.result.error ==
        if reply.Threw? then OuterMessage(reply.message)
        else if ReplyText(reply.text) == "" then FailurePrefix + EmptyReplyMessage
        else FailurePrefix + UnexpectedFormatMessage
  {
    var parts := SpeakerTranscriptionParts(audio);
    var call := [Generate(TranscribeSpeakers, parts)];
    var result :=
      match svc.generate(TranscribeSpeakers, parts)
      case Threw(m) => Failure(OuterMessage(m))
      case Replied(text) =>
        var t := ReplyText(text);
        if t == "" then Failure(OuterMessage(EmptyReplyMessage))
        else match svc.parseJson(t)
          case Some(JArray(items)) =>
            var entries := ValidEntries(items);
            if |entries| == 0 then Failure(OuterMessage(UnexpectedFormatMessage)) else Success(entries)
          case _ => Failure(OuterMessage(UnexpectedFormatMessage));
    NoMarkerInFixedMessages();
    Step(result, call)
  }

  /** Neither fixed inner message mentions an invalid key: neither has a `k`. */
  lemma NoMarkerInFixedMessages()
    ensures !Strings.Contains(EmptyReplyMessage, InvalidKeyMarker)
    ensures !Strings.Contains(UnexpectedFormatMessage, InvalidKeyMarker)
  {
    NoMarkerInEmptyReply();
    NoMarkerInUnexpectedFormat();
  }

  lemma NoMarkerInEmptyReply()
    ensures !Strings.Contains(EmptyReplyMessage, InvalidKeyMarker)
  {
    assert InvalidKeyMarker[4] == 'k';
    assert 'k' !in EmptyReplyMessage;
    MissingCharacterMeansAbsent(EmptyReplyMessage, InvalidKeyMarker, 4);
  }

  lemma NoMarkerInUnexpectedFormat()
    ensures !Strings.Contains(UnexpectedFormatMessage, InvalidKeyMarker)
  {
    assert InvalidKeyMarker[4] == 'k';
    var front, back := "The AI returned a response", " in an unexpected format";
    assert forall j :: 0 <= j < |front| ==> front[j] != 'k';
    assert forall j :: 0 <= j < |back| ==> back[j] != 'k';
    assert forall j :: |front| <= j < |front + back| ==> (front + back)[j] == back[j - |front|];
    assert 'k' !in front + back;
    MissingCharacterMeansAbsent(UnexpectedFormatMessage, InvalidKeyMarker, 4);
  }

  lemma MissingCharacterMeansAbsent(s: string, p: string, k: nat)
    requires k < |p| && p[k] !in s
    ensures !Strings.Contains(s, p)
  {
    forall i | 0 <= i <= |s|
      ensures !Strings.OccursAt(s, p, i)
    {
      if i + |p| <= |s| {
        assert s[i..i + |p|][k] == s[i + k];
      }
    }
  }

  /** The header line that introduces a new speaker. */
  function SpeakerHeader(e: TranscriptionEntry): string {
    "\n[" + e.timestamp + "] " + e.speaker + ":\n"
  }

  /** The text of one entry given the previous speaker: a header when the
      speaker changes, then the dialogue on its own line. */
  function Block(e: TranscriptionEntry, previous: string): string {
    (if e.speaker != previous then SpeakerHeader(e) else "") + e.dialogue + "\n"
  }

  /** The entries' text, starting after speaker `current`. */
  function FormatBody(entries: seq<TranscriptionEntry>, current: string): string {
    if |entries| == 0 then ""
    else Block(entries[0], current) + FormatBody(entries[1..], entries[0].speaker)
  }

  /** `formatTranscription`: the current speaker starts out as the empty label. */
  function FormatTranscription(entries: seq<TranscriptionEntry>): (r: string)
    ensures |r| >= |TranscriptHeader| + |TranscriptFooter|
    ensures r[..|TranscriptHeader|] == TranscriptHeader
    ensures r[|r| - |TranscriptFooter|..] == TranscriptFooter
    // between them, one block per entry in order, the first after no speaker
    ensures r == TranscriptHeader + Concat(Blocks(entries, "")) + TranscriptFooter
  {
    var r := TranscriptHeader + FormatBody(entries, "") + TranscriptFooter;
    FormatBodyIsBlocks(entries, "");
    assert r[..|TranscriptHeader|] == TranscriptHeader;
    assert r[|r| - |TranscriptFooter|..] == TranscriptFooter;
    r
  }

  /** The speaker before entry `i`: the starting label for the first entry. */
  function PreviousSpeaker(entries: seq<TranscriptionEntry>, i: nat, current: string): string
    requires i < |entries|
  {
    if i == 0 then current else entries[i - 1].speaker
  }

  /** The blocks of the entries, one per entry, each given its predecessor's speaker. */
  function Blocks(entries: seq<TranscriptionEntry>, current: string): (r: seq<string>)
    ensures |r| == |entries|
  {
    seq(|entries|, (i: int) requires 0 <= i < |entries| => Block(entries[i], PreviousSpeaker(entries, i, current)))
  }

  /** Dropping the first entry leaves the blocks of the rest, which start
      after the first entry's speaker. */
  lemma BlocksTail(entries: seq<TranscriptionEntry>, current: string)
    requires |entries| > 0
    ensures Blocks(entries, current)[0] == Block(entries[0], current)
    ensures Blocks(entries, current)[1..] == Blocks(entries[1..], entries[0].speaker)
  {
    var r := Blocks(entries, current);
    var t := Blocks(entries[1..], entries[0].speaker);
    forall i | 0 <= i < |t|
      ensures r[1..][i] == t[i]
    {
      assert entries[1..][i] == entries[i + 1];
    }
  }

  function Concat(pieces: seq<string>): string {
    if |pieces| == 0 then "" else pieces[0] + Concat(pieces[1..])
  }

  /** The transcript body is exactly one block per entry, in order: every
      entry's dialogue appears once, preceded by a header exactly when its
      speaker differs from the previous entry's. */
  lemma {:induction false} FormatBodyIsBlocks(entries: seq<TranscriptionEntry>, current: string)
    ensures FormatBody(entries, current) == Concat(Blocks(entries, current))
  {
    if |entries| > 0 {
      FormatBodyIsBlocks(entries[1..], entries[0].speaker);
      BlocksTail(entries, current);
    }
  }

  /** The speaker a list of entries leaves current: its last entry's, or the
      one it started after when it is empty. */
  function LastSpeaker(entries: seq<TranscriptionEntry>, current: string): string {
    if |entries| == 0 then current else entries[|entries| - 1].speaker
  }

  /** Formatting a list split in two continues from the first part's last speaker. */
  lemma FormatBodyAppend(a: seq<TranscriptionEntry>, b: seq<TranscriptionEntry>, current: string)
    ensures FormatBody(a + b, current) == FormatBody(a, current) + FormatBody(b, LastSpeaker(a, current))
  {
    FormatBodyIsBlocks(a + b, current);
    FormatBodyIsBlocks(a, current);
    FormatBodyIsBlocks(b, LastSpeaker(a, current));
    BlocksAppend(a, b, current);
    ConcatAppend(Blocks(a, current), Blocks(b, LastSpeaker(a, current)));
  }

  lemma BlocksAppend(a: seq<TranscriptionEntry>, b: seq<TranscriptionEntry>, current: string)
    ensures Blocks(a + b, current) == Blocks(a, current) + Blocks(b, LastSpeaker(a, current))
  {
    var r, pq := Blocks(a + b, current), Blocks(a, current) + Blocks(b, LastSpeaker(a, current));
    forall i | 0 <= i < |r|
      ensures r[i] == pq[i]
    {
      BlockOfAppend(a, b, current, i);
    }
  }

  /** Block `i` of `a + b` is block `i` of `a`, or block `i - |a|` of `b`
      started after `a`'s last speaker. */
  lemma BlockOfAppend(a: seq<TranscriptionEntry>, b: seq<TranscriptionEntry>, current: string, i: nat)
    requires i < |a| + |b|
    ensures Blocks(a + b, current)[i] == (Blocks(a, current) + Blocks(b, LastSpeaker(a, current)))[i]
  {
    var e, previous := (a + b)[i], PreviousSpeaker(a + b, i, current);
    if i < |a| {
      assert e == a[i] && previous == PreviousSpeaker(a, i, current);
    } else {
      var j := i - |a|;
      assert e == b[j] && previous == PreviousSpeaker(b, j, LastSpeaker(a, current));
    }
  }

  lemma {:induction false} ConcatAppend(p: seq<string>, q: seq<string>)
    ensures Concat(p + q) == Concat(p) + Concat(q)
  {
    if |p| > 0 {
      assert (p + q)[0] == p[0] && (p + q)[1..] == p[1..] + q;
      ConcatAppend(p[1..], q);
    } else {
      assert p + q == q;
    }
  }

  /** The speaker of every entry, entry by entry. */
  function Speakers(entries: seq<TranscriptionEntry>): (r: seq<string>)
    ensures |r| == |entries|
    ensures forall i :: 0 <= i < |entries| ==> r[i] == entries[i].speaker
  {
    Seqs.Map(entries, (e: TranscriptionEntry) => e.speaker)
  }

  /** The speakers of the entries, each once, in order of first appearance. */
  function DistinctSpeakers(entries: seq<TranscriptionEntry>): (r: seq<string>)
    ensures |r| <= |entries|
    ensures Seqs.Distinct(r)
    ensures forall s :: s in r <==> exists i :: 0 <= i < |entries| && entries[i].speaker == s
    ensures forall s :: s in r <==> s in Speakers(entries)
    // the speakers are listed in the order in which they first speak
    ensures forall i, j :: 0 <= i < j < |r| ==>
      Seqs.FirstIndex(Speakers(entries), r[i]) < Seqs.FirstIndex(Speakers(entries), r[j])
  {
    var speakers := Speakers(entries);
    var r := Seqs.Dedup(speakers);
    assert forall s :: s in speakers <==> exists i :: 0 <= i < |entries| && entries[i].speaker == s;
    Seqs.DedupOrder(speakers);
    r
  }

  /** `new Set(entries.map(e => e.speaker)).size`. */
  function SpeakerCount(entries: seq<TranscriptionEntry>): (n: nat)
    ensures n == |set i | 0 <= i < |entries| :: entries[i].speaker|
    ensures n <= |entries|
    ensures |entries| > 0 ==> n >= 1
  {
    var d := DistinctSpeakers(entries);
    Seqs.DistinctCardinality(d);
    assert (set s | s in d) == (set i | 0 <= i < |entries| :: entries[i].speaker);
    assert |entries| > 0 ==> entries[0].speaker in d;
    |d|
  }

  /** The last entry's timestamp, or the zero duration for no entries. */
  function Duration(entries: seq<TranscriptionEntry>): (d: string)
    ensures |entries| > 0 ==> d == entries[|entries| - 1].timestamp
    ensures |entries| == 0 ==> d == NoDuration
  {
    if |entries| > 0 then entries[|entries| - 1].timestamp else NoDuration
  }

  datatype Response =
    | Transcribed(fileName: string, entries: seq<TranscriptionEntry>, formattedTranscript: string, speakerCount: nat, duration: string)
    | Failed(status: nat, message: string)

  datatype Outcome = Outcome(response: Response, effects: seq<Effect>)

  /** The request checks, in order: presence, type, size. */
  function CheckRequest(audio: Option<UploadedFile>): (r: Option<string>)
    ensures r.None? <==> audio.Some? && audio.value.mimeType in AcceptedAudioTypes && audio.value.size <= MaxAudioSize
    ensures audio.None? ==> r == Some(NoFileMessage)
    // the type is checked before the size: an oversized file of the wrong type gets the type message
    ensures audio.Some? && audio.value.mimeType !in AcceptedAudioTypes ==> r == Some(UnsupportedFormatMessage)
    ensures audio.Some? && audio.value.mimeType in AcceptedAudioTypes && audio.value.size > MaxAudioSize ==>
      r == Some(TooLargeMessage)
  {
    match audio
    case None => Some(NoFileMessage)
    case Some(f) =>
      if f.mimeType !in AcceptedAudioTypes then Some(UnsupportedFormatMessage)
      else if f.size > MaxAudioSize then Some(TooLargeMessage)
      else None
  }

  /** `POST /api/transcribe`. */
  function Post(audio: Option<UploadedFile>, svc: Services): (o: Outcome)
    // a rejected request makes no call
    ensures o.response.Failed? && o.response.status == 400 <==> CheckRequest(audio).Some?
    ensures CheckRequest(audio).Some? ==> o.effects == [] && o.response.message == CheckRequest(audio).value
    ensures o.response.Failed? ==> o.response.status == 400 || o.response.status == 500
    ensures o.response.Transcribed? ==>
      && audio.Some?
      && o.response.fileName == audio.value.name
      && |o.response.entries| > 0
      && o.response.formattedTranscript == FormatTranscription(o.response.entries)
      && o.response.speakerCount == |set i | 0 <= i < |o.response.entries| :: o.response.entries[i].speaker|
      && o.response.duration == o.response.entries[|o.response.entries| - 1].timestamp
    // an accepted request answers 200 exactly when the transcription succeeds,
    // with its entries; otherwise 500 with the transcription's message
    ensures CheckRequest(audio).None? ==>
      var step := TranscribeWithSpeakers(audio.value, svc);
      && o.effects == step.effects
      && (o.response.Transcribed? <==> step.result.Success?)
      && (o.response.Transcribed? ==> o.response.entries == step.result.value)
      && (step.result.Failure? ==> o.response == Failed(500, step.result.error))
  {
    match CheckRequest(audio)
    case Some(message) => Outcome(Failed(400, message), [])
    case None =>
      var f := audio.value;
      var step := TranscribeWithSpeakers(f, svc);
      match step.result
      case Failure(message) => Outcome(Failed(500, message), step.effects)
      case Success(entries) =>
        Outcome(Transcribed(f.name, entries, FormatTranscription(entries), SpeakerCount(entries), Duration(entries)), step.effects)
  }

  /** A file of exactly the size limit with an accepted type passes the checks;
      one byte more is refused. */
  lemma SizeLimitIsInclusive(f: UploadedFile)
    requires f.mimeType in AcceptedAudioTypes
    ensures f.size == MaxAudioSize ==> CheckRequest(Some(f)).None?
    ensures f.size == MaxAudioSize + 1 ==> CheckRequest(Some(f)) == Some(TooLargeMessage)
  {
  }
}
