/** The submission form (`components/DocumentInput.tsx`): whether the analyze
    button acts, the document and audio upload filters, and removal of an
    uploaded file by position. */
module DocumentInput {
  import opened Wrappers
  import Strings
  import Seqs
  import Gateway
  import TranscribeRoute

  type File = Gateway.UploadedFile

  /** PDF, DOCX and plain text. */
  const AcceptedDocumentTypes: seq<string> :=
    ["application/pdf", "application/vnd.openxmlformats-officedocument.wordprocessingml.document", "text/plain"]

  /** The form's state: free text and the two upload lists. */
  datatype Form = Form(documents: string, pdfFiles: seq<File>, audioFiles: seq<File>)

  /** The condition `handleAnalyzeClick` checks before submitting. */
  predicate CanAnalyze(f: Form) {
    Strings.Trim(f.documents) != "" || |f.pdfFiles| > 0 || |f.audioFiles| > 0
  }

  /** The button's `disabled` expression, written as in the markup. */
  predicate ButtonDisabled(f: Form) {
    Strings.Trim(f.documents) == "" && |f.pdfFiles| == 0 && |f.audioFiles| == 0
  }

  /** What a click submits: the whole form, or nothing. */
  function AnalyzeClick(f: Form): (r: Option<Form>)
    ensures r.Some? ==> r.value == f
    ensures r.Some? <==> !ButtonDisabled(f)
    ensures r.None? <==> Strings.AllSpace(f.documents) && f.pdfFiles == [] && f.audioFiles == []
  {
    Strings.TrimEmptyIff(f.documents);
    if CanAnalyze(f) then Some(f) else None
  }

  /** The button is disabled exactly when a click would do nothing. */
  lemma DisabledIffNoAnalysis(f: Form)
    ensures ButtonDisabled(f) <==> !CanAnalyze(f)
    ensures ButtonDisabled(f) <==> AnalyzeClick(f).None?
  {
  }

  function HasType(accepted: seq<string>): File -> bool {
    (file: File) => file.mimeType in accepted
  }

  function LacksType(accepted: seq<string>): File -> bool {
    (file: File) => file.mimeType !in accepted
  }

  function FileName(file: File): string {
    file.name
  }

  /** The list after an upload and the names reported as skipped. */
  datatype Upload = Upload(files: seq<File>, skipped: seq<string>)

  /** `handleFileUpload` / `handleAudioUpload`: an absent or empty selection
      changes nothing; otherwise the accepted files are appended in selection
      order and every other file is reported by name. */
  function UploadFiles(existing: seq<File>, selection: Option<seq<File>>, accepted: seq<string>): (r: Upload)
    ensures selection.None? || selection == Some([]) ==> r == Upload(existing, [])
    ensures |r.files| >= |existing| && r.files[..|existing|] == existing
    ensures forall i :: |existing| <= i < |r.files| ==> r.files[i].mimeType in accepted
    ensures selection.Some? ==> r.files[|existing|..] == Seqs.Filter(selection.value, HasType(accepted))
    ensures selection.Some? ==> forall file :: file in selection.value && file.mimeType in accepted ==> file in r.files[|existing|..]
    ensures selection.Some? ==> |r.skipped| == |selection.value| - (|r.files| - |existing|)
  {
    match selection
    case None => Upload(existing, [])
    case Some(files) =>
      if |files| == 0 then Upload(existing, [])
      else
        var added := Seqs.Filter(files, HasType(accepted));
        var skipped := Seqs.Filter(files, LacksType(accepted));
        FilterSplitsLength(files, accepted);
        var r := existing + added;
        assert r[..|existing|] == existing;
        assert r[|existing|..] == added;
        assert forall i :: |existing| <= i < |r| ==> r[i] in added;
        Upload(r, Seqs.Map(skipped, FileName))
  }

  /** The accepted and the skipped files together account for the selection. */
  lemma {:induction false} FilterSplitsLength(files: seq<File>, accepted: seq<string>)
    ensures |Seqs.Filter(files, HasType(accepted))| + |Seqs.Filter(files, LacksType(accepted))| == |files|
  {
    if |files| > 0 {
      FilterSplitsLength(files[1..], accepted);
    }
  }

  function UploadDocuments(f: Form, selection: Option<seq<File>>): (r: Form)
    ensures r.documents == f.documents && r.audioFiles == f.audioFiles
    ensures r.pdfFiles == UploadFiles(f.pdfFiles, selection, AcceptedDocumentTypes).files
  {
    f.(pdfFiles := UploadFiles(f.pdfFiles, selection, AcceptedDocumentTypes).files)
  }

  /** The audio list accepts the same six types as the transcription route. */
  function UploadAudio(f: Form, selection: Option<seq<File>>): (r: Form)
    ensures r.documents == f.documents && r.pdfFiles == f.pdfFiles
    ensures r.audioFiles == UploadFiles(f.audioFiles, selection, TranscribeRoute.AcceptedAudioTypes).files
  {
    f.(audioFiles := UploadFiles(f.audioFiles, selection, TranscribeRoute.AcceptedAudioTypes).files)
  }

  /** `handleRemovePdf` / `handleRemoveAudio`. */
  function RemoveAt(files: seq<File>, index: int): (r: seq<File>)
    ensures 0 <= index < |files| ==> |r| == |files| - 1
    ensures 0 <= index < |files| ==> forall k :: 0 <= k < |r| ==> r[k] == (if k < index then files[k] else files[k + 1])
    ensures !(0 <= index < |files|) ==> r == files
  {
    Seqs.WithoutIndex(files, index)
  }

  /** Uploading one accepted file and then removing it by its position gives
      back the list as it was. */
  lemma UploadThenRemove(existing: seq<File>, file: File, accepted: seq<string>)
    requires file.mimeType in accepted
    ensures RemoveAt(UploadFiles(existing, Some([file]), accepted).files, |existing|) == existing
  {
    var r := UploadFiles(existing, Some([file]), accepted).files;
    assert Seqs.Filter([file], HasType(accepted)) == [file];
    assert r == existing + [file];
    assert r[..|existing|] == existing;
  }

  /** A selection with nothing acceptable leaves the list and so the form's
      readiness unchanged. */
  lemma NothingAcceptedChangesNothing(f: Form, selection: seq<File>)
    requires forall file :: file in selection ==> file.mimeType !in AcceptedDocumentTypes
    ensures UploadDocuments(f, Some(selection)) == f
    ensures CanAnalyze(UploadDocuments(f, Some(selection))) == CanAnalyze(f)
  {
    var r := UploadFiles(f.pdfFiles, Some(selection), AcceptedDocumentTypes).files;
    Seqs.FilterKeepsNone(selection, HasType(AcceptedDocumentTypes));
  }
}
