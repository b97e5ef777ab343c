/** File-name helpers of the backend (`backend/utils/helpers.py`), over POSIX
    `pathlib` semantics: the final path component, its suffix, the supported
    document check and the storage-safe name. */
module Helpers {
  import opened Wrappers
  import Strings
  import Seqs

  const AllowedExtensions: set<string> := {".pdf", ".docx", ".doc"}

  /** A component pathlib drops when it parses a path. */
  predicate Dropped(part: string) {
    part == "" || part == "."
  }

  /** `parts[k]` is kept and every component after it is dropped. */
  predicate LastKept(parts: seq<string>, k: int) {
    0 <= k < |parts| && !Dropped(parts[k]) && forall j :: k < j < |parts| ==> Dropped(parts[j])
  }

  /** The components of a path: the pieces between its slashes. */
  function Components(filename: string): seq<string> {
    Strings.Split(filename, "/")
  }

  /** `Path(filename).name`: the last component that is neither empty nor `.`
      (pathlib drops both when it parses a path), or the empty string. */
  function PathName(filename: string): (r: string)
    ensures '/' !in r
    ensures r != "."
    ensures '/' !in filename && filename != "." ==> r == filename
    // read against the components: the last one kept, or "" exactly when
    // every component is dropped
    ensures r != "" ==> exists k :: LastKept(Components(filename), k) && Components(filename)[k] == r
    ensures r == "" <==> forall j :: 0 <= j < |Components(filename)| ==> Dropped(Components(filename)[j])
  {
    var parts := Components(filename);
    Strings.SplitPiecesAvoidChar(filename, '/');
    assert '/' !in filename ==> parts == [filename] by {
      if '/' !in filename {
        Strings.SplitWithoutSeparator(filename, '/');
      }
    }
    LastProperComponent(parts)
  }

  /** The last component that is neither empty nor `.`, or "" when there is none. */
  function LastProperComponent(parts: seq<string>): (r: string)
    ensures r == "" || r in parts
    ensures r != "."
    ensures |parts| > 0 && !Dropped(parts[|parts| - 1]) ==> r == parts[|parts| - 1]
    ensures r != "" ==> exists k :: LastKept(parts, k) && parts[k] == r
    ensures r == "" <==> forall j :: 0 <= j < |parts| ==> Dropped(parts[j])
  {
    if |parts| == 0 then ""
    else if !Dropped(parts[|parts| - 1]) then
      assert LastKept(parts, |parts| - 1);
      parts[|parts| - 1]
    else
      var front := parts[..|parts| - 1];
      var r := LastProperComponent(front);
      assert forall j :: 0 <= j < |front| ==> front[j] == parts[j];
      assert r != "" ==> exists k :: LastKept(parts, k) && parts[k] == r by {
        if r != "" {
          var k :| LastKept(front, k) && front[k] == r;
          assert LastKept(parts, k);
        }
      }
      r
  }

  /** The name of a path is its final component: the part after the last
      slash, when that part is a proper name. */
  lemma PathNameOfPath(directory: string, name: string)
    requires '/' !in name && !Dropped(name)
    ensures PathName(directory + "/" + name) == name
  {
    var parts := Components(directory + "/" + name);
    assert directory + "/" + name == directory + ['/'] + name;
    Strings.SplitEndsWithLastPiece(directory, '/', name);
    assert parts[|parts| - 1] == name;
  }

  /** `PurePath.suffix`: from the last dot, when that dot is neither the first
      nor the last character of the name. */
  function Suffix(name: string): (r: string)
    ensures r == "" || (|r| >= 2 && |r| < |name| && r == name[|name| - |r|..] && r[0] == '.' && '.' !in r[1..])
  {
    match Strings.LastIndexOf(name, '.')
    case None => ""
    case Some(i) =>
      if 0 < i < |name| - 1 then
        assert forall c :: c in name[i..][1..] ==> c in name[i + 1..];
        name[i..]
      else ""
  }

  /** `get_file_extension`: the lowercased suffix of the final component. */
  function FileExtension(filename: string): string {
    Strings.Lower(Suffix(PathName(filename)))
  }

  /** `validate_file_type`. */
  predicate ValidateFileType(filename: string) {
    FileExtension(filename) in AllowedExtensions
  }

  /** `n` ends with `e`, ignoring ASCII case, and has at least one character before it. */
  predicate EndsWithIgnoringCase(n: string, e: string) {
    |e| < |n| && Strings.Lower(n[|n| - |e|..]) == e
  }

  /** A file is supported exactly when its final component ends in `.pdf`,
      `.docx` or `.doc`, in any letter case, after at least one character. */
  lemma ValidateMeansSupportedEnding(filename: string)
    ensures ValidateFileType(filename) <==>
      EndsWithIgnoringCase(PathName(filename), ".pdf") ||
      EndsWithIgnoringCase(PathName(filename), ".docx") ||
      EndsWithIgnoringCase(PathName(filename), ".doc")
  {
    var n := PathName(filename);
    if Strings.Lower(Suffix(n)) in AllowedExtensions {
      AllowedSuffixIsEnding(n);
    }
    if EndsWithIgnoringCase(n, ".pdf") || EndsWithIgnoringCase(n, ".docx") || EndsWithIgnoringCase(n, ".doc") {
      EndingIsAllowedSuffix(n);
    }
  }

  lemma AllowedSuffixIsEnding(n: string)
    requires Strings.Lower(Suffix(n)) in AllowedExtensions
    ensures EndsWithIgnoringCase(n, ".pdf") || EndsWithIgnoringCase(n, ".docx") || EndsWithIgnoringCase(n, ".doc")
  {
    var s := Suffix(n);
    var e := Strings.Lower(s);
    assert e == Strings.Lower(n[|n| - |s|..]);
    assert EndsWithIgnoringCase(n, e);
  }

  lemma EndingIsAllowedSuffix(n: string)
    requires EndsWithIgnoringCase(n, ".pdf") || EndsWithIgnoringCase(n, ".docx") || EndsWithIgnoringCase(n, ".doc")
    ensures Strings.Lower(Suffix(n)) in AllowedExtensions
  {
    AllowedAreExtensionShaped();
    if EndsWithIgnoringCase(n, ".pdf") {
      EndingGivesSuffix(n, ".pdf");
    } else if EndsWithIgnoringCase(n, ".docx") {
      EndingGivesSuffix(n, ".docx");
    } else {
      EndingGivesSuffix(n, ".doc");
    }
  }

  /** A dot followed by lower-case characters none of which is a dot. */
  predicate ExtensionShaped(e: string) {
    |e| >= 2 && e[0] == '.' && forall k :: 1 <= k < |e| ==> e[k] != '.' && Strings.LowerChar(e[k]) == e[k]
  }

  lemma AllowedAreExtensionShaped()
    ensures ExtensionShaped(".pdf") && ExtensionShaped(".docx") && ExtensionShaped(".doc")
  {
    assert ".docx"[1] == 'd' && ".docx"[2] == 'o' && ".docx"[3] == 'c' && ".docx"[4] == 'x';
  }

  /** An extension-shaped ending of a name is its suffix. */
  lemma EndingGivesSuffix(n: string, e: string)
    requires ExtensionShaped(e)
    requires EndsWithIgnoringCase(n, e)
    ensures Suffix(n) == n[|n| - |e|..]
    ensures Strings.Lower(Suffix(n)) == e
  {
    var i := |n| - |e|;
    var lowered := Strings.Lower(n[i..]);
    assert n[i] == '.' by {
      assert lowered[0] == Strings.LowerChar(n[i..][0]);
    }
    forall k | i < k < |n|
      ensures n[k] != '.'
    {
      assert lowered[k - i] == Strings.LowerChar(n[k]);
    }
    assert Strings.LastIndexOf(n, '.') == Some(i);
  }

  /** Upper-case extensions are accepted: `X.PDF` is a supported name. */
  lemma UpperCaseExtensionAccepted(stem: string)
    requires stem != "" && '/' !in stem
    ensures ValidateFileType(stem + ".PDF")
  {
    var n := stem + ".PDF";
    assert '/' !in n by {
      assert forall k :: 0 <= k < |stem| ==> n[k] == stem[k];
    }
    assert PathName(n) == n;
    var t := n[|n| - 4..];
    assert t == ".PDF";
    var l := Strings.Lower(t);
    assert l[0] == '.' && l[1] == 'p' && l[2] == 'd' && l[3] == 'f';
    assert l == ".pdf";
    assert EndsWithIgnoringCase(n, ".pdf");
    ValidateMeansSupportedEnding(n);
  }

  function Underscore(c: char): char {
    if c == ' ' then '_' else c
  }

  /** `sanitize_filename`: the final component with every space made `_`. */
  function SanitizeFilename(filename: string): (r: string)
    ensures ' ' !in r && '/' !in r
    ensures |r| == |PathName(filename)|
    ensures forall k :: 0 <= k < |r| ==> r[k] == (if PathName(filename)[k] == ' ' then '_' else PathName(filename)[k])
  {
    Seqs.Map(PathName(filename), Underscore)
  }

  /** Sanitising twice is sanitising once. */
  lemma SanitizeIdempotent(filename: string)
    ensures SanitizeFilename(SanitizeFilename(filename)) == SanitizeFilename(filename)
  {
    var s := SanitizeFilename(filename);
    assert s != ".";
    assert PathName(s) == s;
    assert Seqs.Map(s, Underscore) == s;
  }

  /** Sanitising neither admits nor rejects a file: its check result is unchanged. */
  lemma SanitizeKeepsValidity(filename: string)
    ensures ValidateFileType(SanitizeFilename(filename)) == ValidateFileType(filename)
  {
    var n := PathName(filename);
    var s := SanitizeFilename(filename);
    assert s != ".";
    assert PathName(s) == s;
    SuffixCommutesWithUnderscore(n);
    UnderscoreKeepsAllowed(Suffix(n));
  }

  /** A lowered suffix with a space is not allowed, and neither is it once the
      space has become `_`; one without a space is unchanged. */
  lemma UnderscoreKeepsAllowed(x: string)
    ensures Strings.Lower(Seqs.Map(x, Underscore)) in AllowedExtensions <==> Strings.Lower(x) in AllowedExtensions
  {
    if ' ' in x {
      var k :| 0 <= k < |x| && x[k] == ' ';
      assert Strings.Lower(x)[k] == ' ';
      assert Strings.Lower(Seqs.Map(x, Underscore))[k] == '_';
      AllowedHaveNoBlank(Strings.Lower(x), k);
      AllowedHaveNoBlank(Strings.Lower(Seqs.Map(x, Underscore)), k);
    } else {
      assert Seqs.Map(x, Underscore) == x;
    }
  }

  lemma AllowedHaveNoBlank(e: string, k: nat)
    requires k < |e| && (e[k] == ' ' || e[k] == '_')
    ensures e !in AllowedExtensions
  {
    assert ".pdf"[1..] == "pdf";
    assert ".doc"[1..] == "doc";
    assert ".docx"[1..] == "docx";
  }

  /** Replacing spaces moves no dot, so the suffix is taken at the same place. */
  lemma SuffixCommutesWithUnderscore(n: string)
    ensures Suffix(Seqs.Map(n, Underscore)) == Seqs.Map(Suffix(n), Underscore)
  {
    LastDotUnchanged(n);
    match Strings.LastIndexOf(n, '.')
    case None =>
    case Some(i) =>
      if 0 < i < |n| - 1 {
        UnderscoreTail(n, i);
      }
  }

  lemma UnderscoreTail(n: string, i: nat)
    requires i <= |n|
    ensures Seqs.Map(n, Underscore)[i..] == Seqs.Map(n[i..], Underscore)
  {
  }

  /** Underscoring moves no dot. */
  lemma LastDotUnchanged(n: string)
    ensures Strings.LastIndexOf(Seqs.Map(n, Underscore), '.') == Strings.LastIndexOf(n, '.')
  {
    var m := Seqs.Map(n, Underscore);
    assert forall k :: 0 <= k < |n| ==> (m[k] == '.' <==> n[k] == '.');
    Strings.LastIndexOfSamePositions(m, n, '.');
  }
}
