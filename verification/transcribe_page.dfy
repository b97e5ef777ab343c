/** The client side of transcription (`app/transcribe/page.tsx`): the
    speaker-name table, renaming, the renamed transcript for download, display
    names, speaker colours and the download file name. The name table is a
    JavaScript object; it is modelled as an association list in key-insertion
    order. */
module TranscribePage {
  import opened Wrappers
  import Strings
  import Seqs
  import TranscribeRoute

  /** Original speaker label paired with its custom name, one pair per label. */
  type Names = seq<(string, string)>

  const SpeakerColors: seq<string> :=
    ["text-blue-400", "text-green-400", "text-yellow-400", "text-purple-400", "text-pink-400", "text-indigo-400"]

  function Keys(names: Names): (r: seq<string>)
    ensures |r| == |names|
    ensures forall i :: 0 <= i < |names| ==> r[i] == names[i].0
  {
    if |names| == 0 then [] else [names[0].0] + Keys(names[1..])
  }

  /** `names[key]`: the value stored under `key`, if any. */
  function Lookup(names: Names, key: string): (r: Option<string>)
    ensures r.None? <==> key !in Keys(names)
    ensures r.Some? ==> exists i :: 0 <= i < |names| && names[i] == (key, r.value)
  {
    if |names| == 0 then None
    else if names[0].0 == key then Some(names[0].1)
    else
      var r := Lookup(names[1..], key);
      assert Keys(names) == [names[0].0] + Keys(names[1..]);
      assert r.Some? ==> exists i :: 0 <= i < |names| && names[i] == (key, r.value) by {
        if r.Some? {
          var i :| 0 <= i < |names[1..]| && names[1..][i] == (key, r.value);
          assert names[i + 1] == (key, r.value);
        }
      }
      r
  }

  /** The table set up after a transcription: each distinct speaker, in order
      of first appearance, named after itself. */
  function InitialNames(entries: seq<TranscribeRoute.TranscriptionEntry>): (r: Names)
    ensures Keys(r) == TranscribeRoute.DistinctSpeakers(entries)
    ensures forall i :: 0 <= i < |r| ==> r[i].1 == r[i].0
  {
    var speakers := TranscribeRoute.DistinctSpeakers(entries);
    Seqs.Map(speakers, (s: string) => (s, s))
  }

  /** `{...prev, [original]: newName || original}`: an existing key keeps its
      place, a new key goes last. */
  function Rename(names: Names, original: string, newName: string): (r: Names)
    ensures original in Keys(names) ==> Keys(r) == Keys(names)
    ensures original !in Keys(names) ==> Keys(r) == Keys(names) + [original]
  {
    var value := if newName != "" then newName else original;
    if |names| == 0 then [(original, value)]
    else if names[0].0 == original then [(original, value)] + names[1..]
    else
      var rest := Rename(names[1..], original, newName);
      var r := [names[0]] + rest;
      assert Keys(r) == [names[0].0] + Keys(rest);
      assert Keys(names) == [names[0].0] + Keys(names[1..]);
      r
  }

  /** After a rename the label reads as the new name, or as itself when the
      new name is empty, and every other label reads as before. */
  lemma {:induction false} RenameLookup(names: Names, original: string, newName: string, other: string)
    ensures Lookup(Rename(names, original, newName), original) == Some(if newName != "" then newName else original)
    ensures other != original ==> Lookup(Rename(names, original, newName), other) == Lookup(names, other)
  {
    if |names| > 0 && names[0].0 != original {
      RenameLookup(names[1..], original, newName, other);
    }
  }

  /** `getUpdatedTranscript`: for each pair in table order whose custom name is
      non-empty and differs from the label, every `label:` becomes `custom:`.
      The label is used as a regular expression in the source; here it is taken
      literally, which agrees whenever labels hold no metacharacters. */
  function UpdatedTranscript(text: string, names: Names): string
    decreases names
  {
    if |names| == 0 then text
    else
      var (original, custom) := names[0];
      var next := if custom != "" && custom != original then Strings.ReplaceAll(text, original + ":", custom + ":") else text;
      UpdatedTranscript(next, names[1..])
  }

  /** No renamed speaker, no change: a table whose every custom name is empty
      or equal to its label leaves the transcript as formatted. */
  lemma {:induction false} UnchangedWithoutCustomNames(text: string, names: Names)
    requires forall i :: 0 <= i < |names| ==> names[i].1 == "" || names[i].1 == names[i].0
    ensures UpdatedTranscript(text, names) == text
  {
    if |names| > 0 {
      UnchangedWithoutCustomNames(text, names[1..]);
    }
  }

  /** With a single renamed speaker, the download is the transcript split at
      every `label:` and joined with `custom:`. */
  lemma {:induction false} SingleRenameReplacesEveryLabel(text: string, names: Names, k: nat)
    requires k < |names|
    requires names[k].1 != "" && names[k].1 != names[k].0
    requires forall i :: 0 <= i < |names| && i != k ==> names[i].1 == "" || names[i].1 == names[i].0
    ensures UpdatedTranscript(text, names) ==
      Strings.Join(Strings.Split(text, names[k].0 + ":"), names[k].1 + ":")
  {
    if k == 0 {
      var next := Strings.ReplaceAll(text, names[0].0 + ":", names[0].1 + ":");
      UnchangedWithoutCustomNames(next, names[1..]);
      Strings.ReplaceAllIsSplitJoin(text, names[0].0 + ":", names[0].1 + ":");
    } else {
      SingleRenameReplacesEveryLabel(text, names[1..], k - 1);
    }
  }

  /** `names[speaker] || speaker`. */
  function DisplaySpeaker(names: Names, speaker: string): (r: string)
    ensures Lookup(names, speaker).Some? && Lookup(names, speaker).value != "" ==> r == Lookup(names, speaker).value
    ensures r != speaker ==> Lookup(names, speaker) == Some(r) && r != ""
  {
    match Lookup(names, speaker)
    case Some(name) => if name != "" then name else speaker
    case None => speaker
  }

  /** After renaming to the empty string the label shows as itself again. */
  lemma ClearingRestoresLabel(names: Names, speaker: string)
    ensures DisplaySpeaker(Rename(names, speaker, ""), speaker) == speaker
  {
    RenameLookup(names, speaker, "", speaker);
  }

  /** The colour index of a speaker: its rank among the distinct speakers
      modulo the six colours; a speaker not in the transcript has none
      (`indexOf` is -1 and `colors[-1]` is undefined). */
  function SpeakerColorIndex(entries: seq<TranscribeRoute.TranscriptionEntry>, speaker: string): (r: Option<nat>)
    ensures r.Some? <==> speaker in TranscribeRoute.DistinctSpeakers(entries)
    ensures r.Some? ==> r.value < |SpeakerColors|
    ensures r.Some? ==> r.value == Seqs.IndexOf(TranscribeRoute.DistinctSpeakers(entries), speaker) % |SpeakerColors|
  {
    var i := Seqs.IndexOf(TranscribeRoute.DistinctSpeakers(entries), speaker);
    if i < 0 then None else Some(i % |SpeakerColors|)
  }

  function SpeakerColor(entries: seq<TranscribeRoute.TranscriptionEntry>, speaker: string): (r: Option<string>)
    ensures r.Some? <==> exists i :: 0 <= i < |entries| && entries[i].speaker == speaker
    ensures r.Some? ==> r.value in SpeakerColors
    // the colour at the speaker's rank among the distinct speakers, cycling after six
    ensures r.Some? ==>
      r.value == SpeakerColors[Seqs.IndexOf(TranscribeRoute.DistinctSpeakers(entries), speaker) % |SpeakerColors|]
  {
    match SpeakerColorIndex(entries, speaker)
    case None => None
    case Some(c) => Some(SpeakerColors[c])
  }

  /** The first six speakers get six different colours. */
  lemma FirstSixColoursDiffer(entries: seq<TranscribeRoute.TranscriptionEntry>, a: string, b: string)
    requires var d := TranscribeRoute.DistinctSpeakers(entries);
      a in d && b in d && a != b && Seqs.IndexOf(d, a) < 6 && Seqs.IndexOf(d, b) < 6
    ensures SpeakerColorIndex(entries, a) != SpeakerColorIndex(entries, b)
    ensures SpeakerColor(entries, a) != SpeakerColor(entries, b)
  {
    var d := TranscribeRoute.DistinctSpeakers(entries);
    var ia, ib := Seqs.IndexOf(d, a), Seqs.IndexOf(d, b);
    assert d[ia] != d[ib];
    assert |SpeakerColors| == 6;
    SmallRankIsColourIndex(ia);
    SmallRankIsColourIndex(ib);
    assert SpeakerColorIndex(entries, a) == Some(ia) && SpeakerColorIndex(entries, b) == Some(ib);
    ColoursDistinct(ia, ib);
    assert SpeakerColor(entries, a) == Some(SpeakerColors[ia]);
  }

  /** A rank below six is its own colour index. */
  lemma SmallRankIsColourIndex(i: int)
    requires 0 <= i < |SpeakerColors|
    ensures i % |SpeakerColors| == i
  {
  }

  /** The six colours are six different classes. */
  lemma ColoursDistinct(i: nat, j: nat)
    requires i < j < |SpeakerColors| || j < i < |SpeakerColors|
    ensures SpeakerColors[i] != SpeakerColors[j]
  {
    // the colour names differ at their sixth or seventh character
    var c := SpeakerColors;
    assert c[0][5] == 'b' && c[1][5] == 'g' && c[2][5] == 'y' && c[3][5] == 'p' && c[4][5] == 'p' && c[5][5] == 'i';
    assert c[3][6] == 'u' && c[4][6] == 'i';
  }

  /** The indicator next to the download button: some value differs from the
      key at the same position. */
  predicate HasCustomNames(names: Names) {
    exists i :: 0 <= i < |names| && names[i].1 != names[i].0
  }

  /** A fresh table shows no custom names; renaming a listed speaker to a new
      non-empty name shows the indicator. */
  lemma CustomNamesIndicator(entries: seq<TranscribeRoute.TranscriptionEntry>, original: string, newName: string)
    ensures !HasCustomNames(InitialNames(entries))
    ensures newName != "" && newName != original ==> HasCustomNames(Rename(InitialNames(entries), original, newName))
  {
    var r := Rename(InitialNames(entries), original, newName);
    RenameLookup(InitialNames(entries), original, newName, original);
    if newName != "" && newName != original {
      var i :| 0 <= i < |r| && r[i] == (original, newName);
    }
  }

  /** `name.replace(/\.[^/.]+$/, '')`: the last dot and what follows it are
      dropped when that tail is non-empty and holds no `/`. */
  function StripExtension(name: string): (r: string)
    ensures |r| <= |name| && r == name[..|r|]
    ensures r != name ==> IsExtension(name, |r|)
    ensures r == name ==> forall j :: 0 <= j < |name| ==> !IsExtension(name, j)
  {
    match Strings.LastIndexOf(name, '.')
    case None => name
    case Some(j) =>
      if IsExtension(name, j) then name[..j]
      else
        assert forall k :: 0 <= k < |name| ==> !IsExtension(name, k);
        name
  }

  /** A match of `\.[^/.]+$` starting at `j`. */
  predicate IsExtension(name: string, j: nat) {
    j + 1 < |name| && name[j] == '.' && forall k :: j < k < |name| ==> name[k] != '/' && name[k] != '.'
  }

  /** `transcript_${file?.name?.replace(...)}.txt`; no file prints `undefined`. */
  function DownloadName(fileName: Option<string>): (r: string)
    ensures fileName.None? ==> r == "transcript_undefined.txt"
    ensures fileName.Some? ==> r == "transcript_" + StripExtension(fileName.value) + ".txt"
  {
    "transcript_" + (match fileName case Some(n) => StripExtension(n) case None => "undefined") + ".txt"
  }
}
