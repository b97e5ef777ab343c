/** Citations in the legal assistant's answers (`services/agent.py`): the
    retrieval tool prints every document under a `[source, location]` tag,
    and the answer's tags are read back with the pattern
    `\[([^,\]]+),\s*([^\]]+)\]`, stripped, and deduplicated in order of first
    appearance. The pattern is modelled by its leftmost, non-overlapping,
    backtracking semantics. */
module Citations {
  import opened Wrappers
  import Strings
  import Seqs
  import VectorStore

  /** The `Citation` schema; two citations are the same when both fields are. */
  datatype Citation = Citation(filename: string, location: string)

  /** Characters the first group cannot contain. */
  predicate Stop(c: char) {
    c == ',' || c == ']'
  }

  /** The first `,` or `]` at or after `from`. */
  function FirstStop(s: string, from: nat): (r: Option<nat>)
    requires from <= |s|
    ensures r.Some? ==> from <= r.value < |s| && Stop(s[r.value]) && forall k :: from <= k < r.value ==> !Stop(s[k])
    ensures r.None? ==> forall k :: from <= k < |s| ==> !Stop(s[k])
    decreases |s| - from
  {
    if from == |s| then None
    else if Stop(s[from]) then Some(from)
    else FirstStop(s, from + 1)
  }

  /** The first `]` at or after `from`. */
  function FirstClose(s: string, from: nat): (r: Option<nat>)
    requires from <= |s|
    ensures r.Some? ==> from <= r.value < |s| && s[r.value] == ']' && forall k :: from <= k < r.value ==> s[k] != ']'
    ensures r.None? ==> forall k :: from <= k < |s| ==> s[k] != ']'
    decreases |s| - from
  {
    if from == |s| then None
    else if s[from] == ']' then Some(from)
    else FirstClose(s, from + 1)
  }

  /** How many whitespace characters `\s*` takes greedily from `from`, up to `to`. */
  function SpaceRun(s: string, from: nat, to: nat): (n: nat)
    requires from <= to <= |s|
    ensures from + n <= to
    ensures forall k :: from <= k < from + n ==> Strings.IsSpace(s[k])
    ensures from + n < to ==> !Strings.IsSpace(s[from + n])
    decreases |s| - from
  {
    if from == to || !Strings.IsSpace(s[from]) then 0
    else 1 + SpaceRun(s, from + 1, to)
  }

  /** One match: the two raw groups, the position of the comma, where the
      second group starts, and the position just past the closing bracket. */
  datatype Match = Match(filename: string, location: string, comma: nat, start: nat, end: nat)

  /** What a match at `i` is: `[`, a non-empty run without `,` or `]`, a
      comma, blanks, a non-empty second group without `]`, and `]`. */
  predicate Matched(s: string, i: nat, m: Match) {
    && i + 1 < m.comma < m.start < m.end - 1 && m.end <= |s|
    && s[i] == '[' && s[m.comma] == ',' && s[m.end - 1] == ']'
    && m.filename == s[i + 1..m.comma] && ',' !in m.filename && ']' !in m.filename
    && LocationAfterBlanks(s, m)
    && ']' !in s[m.comma + 1..m.end - 1]
  }

  /** The second group is what follows the blanks after the comma, up to the bracket. */
  predicate LocationAfterBlanks(s: string, m: Match) {
    && m.comma < m.start < m.end - 1 && m.end <= |s|
    && s[m.comma + 1..m.end - 1] == s[m.comma + 1..m.start] + m.location
    && Strings.AllSpace(s[m.comma + 1..m.start])
  }

  /** The pattern anchored at `i`. The first group is the whole run up to the
      first `,` or `]`, which must be a comma; the second group runs to the
      first `]` after it, starting after the blanks `\s*` takes, which give
      back one character when nothing else is left for the group. */
  function MatchAt(s: string, i: nat): (r: Option<Match>)
    requires i < |s|
    ensures r.Some? ==> Matched(s, i, r.value)
  {
    if s[i] != '[' then None
    else
      match FirstStop(s, i + 1)
      case None => None
      case Some(c) =>
        if s[c] != ',' || c == i + 1 then None
        else
          match FirstClose(s, c + 1)
          case None => None
          case Some(e) =>
            if e == c + 1 then None
            else Some(MatchBetween(s, i, c, e))
  }

  /** The match once its comma `c` and closing bracket `e` are known. */
  function MatchBetween(s: string, i: nat, c: nat, e: nat): (m: Match)
    requires i + 1 < c && c + 1 < e < |s|
    requires s[i] == '[' && s[c] == ',' && s[e] == ']'
    requires forall k :: i + 1 <= k < c ==> !Stop(s[k])
    requires forall k :: c + 1 <= k < e ==> s[k] != ']'
    ensures Matched(s, i, m)
  {
    var w := SpaceRun(s, c + 1, e);
    var g := if c + 1 + w < e then c + 1 + w else e - 1;
    var m := Match(s[i + 1..c], s[g..e], c, g, e + 1);
    NoStopInRun(s, i + 1, c);
    BlanksThenLocation(s, m);
    m
  }

  lemma NoStopInRun(s: string, from: nat, to: nat)
    requires from <= to <= |s|
    requires forall k :: from <= k < to ==> !Stop(s[k])
    ensures ',' !in s[from..to] && ']' !in s[from..to]
  {
    var run := s[from..to];
    forall j | 0 <= j < |run|
      ensures run[j] != ',' && run[j] != ']'
    {
      assert run[j] == s[from + j];
    }
  }

  lemma BlanksThenLocation(s: string, m: Match)
    requires m.comma < m.start < m.end - 1 && m.end <= |s|
    requires m.location == s[m.start..m.end - 1]
    requires forall k :: m.comma + 1 <= k < m.start ==> Strings.IsSpace(s[k])
    requires forall k :: m.comma + 1 <= k < m.end - 1 ==> s[k] != ']'
    ensures LocationAfterBlanks(s, m)
    ensures ']' !in s[m.comma + 1..m.end - 1]
  {
    assert s[m.comma + 1..m.end - 1] == s[m.comma + 1..m.start] + s[m.start..m.end - 1];
    var blanks, between := s[m.comma + 1..m.start], s[m.comma + 1..m.end - 1];
    forall j | 0 <= j < |blanks|
      ensures Strings.IsSpace(blanks[j])
    {
      assert blanks[j] == s[m.comma + 1 + j];
    }
    forall j | 0 <= j < |between|
      ensures between[j] != ']'
    {
      assert between[j] == s[m.comma + 1 + j];
    }
  }

  /** The second group differs from the whole text between the comma and the
      bracket only by leading blanks, so once stripped they agree. */
  lemma MatchedLocation(s: string, m: Match)
    requires LocationAfterBlanks(s, m)
    ensures Strings.Trim(m.location) == Strings.Trim(s[m.comma + 1..m.end - 1])
  {
    Strings.TrimSkipsBlankPrefix(s[m.comma + 1..m.start], m.location);
  }

  /** The first group is non-empty and free of `,` and `]`; the second is free of `]`. */
  predicate CleanGroups(m: Match) {
    m.filename != "" && ',' !in m.filename && ']' !in m.filename && ']' !in m.location
  }

  lemma MatchedGroupsClean(s: string, i: nat, m: Match)
    requires Matched(s, i, m)
    ensures CleanGroups(m)
  {
    var between := s[m.comma + 1..m.end - 1];
    assert between == s[m.comma + 1..m.start] + m.location;
    assert forall k :: 0 <= k < |m.location| ==> m.location[k] == between[m.start - m.comma - 1 + k];
  }

  /** `re.findall` from position `i`: leftmost matches, each search resuming
      after the previous match. */
  function FindAll(s: string, i: nat): (r: seq<Match>)
    requires i <= |s|
    ensures forall m :: m in r ==> CleanGroups(m)
    decreases |s| - i
  {
    if i == |s| then []
    else
      match MatchAt(s, i)
      case Some(m) =>
        MatchedGroupsClean(s, i, m);
        [m] + FindAll(s, m.end)
      case None => FindAll(s, i + 1)
  }

  /** Where a match's opening bracket is: just before its first group. */
  function OpenAt(m: Match): int {
    m.comma - |m.filename| - 1
  }

  /** A match at the scan position is the first one found, and the scan
      resumes after it. */
  lemma FindAllAtMatch(s: string, i: nat, m: Match)
    requires i < |s| && MatchAt(s, i) == Some(m)
    ensures FindAll(s, i) == [m] + FindAll(s, m.end)
  {
  }

  /** `m` is the pattern's match at its own bracket, at or after `i`. */
  predicate MatchFrom(s: string, i: nat, m: Match) {
    i <= OpenAt(m) < |s| && MatchAt(s, OpenAt(m)) == Some(m)
  }

  /** Every match found is the pattern's match at its own bracket, at or
      after the starting point. */
  lemma {:induction false} FindAllSound(s: string, i: nat)
    requires i <= |s|
    ensures forall m :: m in FindAll(s, i) ==> MatchFrom(s, i, m)
    decreases |s| - i
  {
    if i < |s| {
      match MatchAt(s, i)
      case Some(m) =>
        var later := FindAll(s, m.end);
        FindAllAtMatch(s, i, m);
        assert OpenAt(m) == i && MatchFrom(s, i, m);
        FindAllSound(s, m.end);
        assert forall x :: MatchFrom(s, m.end, x) ==> MatchFrom(s, i, x);
      case None =>
        FindAllSound(s, i + 1);
        assert forall x :: MatchFrom(s, i + 1, x) ==> MatchFrom(s, i, x);
    }
  }

  /** The matches found follow one another without overlapping: each starts
      at or after the end of the one before. */
  lemma {:induction false} FindAllOrdered(s: string, i: nat)
    requires i <= |s|
    ensures forall a, b :: 0 <= a < b < |FindAll(s, i)| ==> FindAll(s, i)[a].end <= OpenAt(FindAll(s, i)[b])
    decreases |s| - i
  {
    if i < |s| {
      match MatchAt(s, i)
      case Some(m) =>
        var later := FindAll(s, m.end);
        FindAllAtMatch(s, i, m);
        FindAllSound(s, m.end);
        FindAllOrdered(s, m.end);
        NoOverlapCons(m, later);
      case None =>
        FindAllOrdered(s, i + 1);
    }
  }

  /** A match ending before every later match starts, followed by matches
      that do not overlap, gives matches that do not overlap. */
  lemma NoOverlapCons(m: Match, later: seq<Match>)
    requires forall x :: x in later ==> m.end <= OpenAt(x)
    requires forall a, b :: 0 <= a < b < |later| ==> later[a].end <= OpenAt(later[b])
    ensures forall a, b :: 0 <= a < b < |[m] + later| ==> ([m] + later)[a].end <= OpenAt(([m] + later)[b])
  {
    var r := [m] + later;
    forall a, b | 0 <= a < b < |r|
      ensures r[a].end <= OpenAt(r[b])
    {
      assert r[b] == later[b - 1] && r[b] in later;
      if a > 0 {
        assert r[a] == later[a - 1];
      }
    }
  }

  /** No match is skipped: wherever the pattern matches, that match is found,
      unless its bracket lies inside a match found before it. */
  lemma {:induction false} FindAllComplete(s: string, i: nat, k: nat)
    requires i <= k < |s| && MatchAt(s, k).Some?
    ensures || MatchAt(s, k).value in FindAll(s, i)
            || exists m :: m in FindAll(s, i) && OpenAt(m) < k < m.end
    decreases |s| - i
  {
    match MatchAt(s, i)
    case Some(m) =>
      var later := FindAll(s, m.end);
      FindAllAtMatch(s, i, m);
      assert m in FindAll(s, i) && OpenAt(m) == i;
      if k >= m.end {
        FindAllComplete(s, m.end, k);
        assert forall x :: x in later ==> x in FindAll(s, i);
      }
    case None =>
      FindAllComplete(s, i + 1, k);
  }

  /** Text without an opening bracket has no matches. */
  lemma {:induction false} NoBracketNoMatches(s: string, i: nat)
    requires i <= |s|
    requires forall k :: i <= k < |s| ==> s[k] != '['
    ensures FindAll(s, i) == []
    decreases |s| - i
  {
    if i < |s| {
      NoBracketNoMatches(s, i + 1);
    }
  }

  /** The stripped groups of one match. */
  function ToCitation(m: Match): Citation {
    Citation(Strings.Trim(m.filename), Strings.Trim(m.location))
  }

  /** A citation as the pattern can produce it: a filename without `,` or `]`,
      a location without `]`, neither with surrounding whitespace. */
  predicate CleanCitation(x: Citation) {
    && ',' !in x.filename && ']' !in x.filename && ']' !in x.location
    && (x.filename != "" ==> !Strings.IsSpace(x.filename[0]) && !Strings.IsSpace(x.filename[|x.filename| - 1]))
    && (x.location != "" ==> !Strings.IsSpace(x.location[0]) && !Strings.IsSpace(x.location[|x.location| - 1]))
  }

  lemma CleanMatchesGiveCleanCitations(ms: seq<Match>)
    requires forall m :: m in ms ==> CleanGroups(m)
    ensures forall x :: x in Seqs.Map(ms, ToCitation) ==> CleanCitation(x)
  {
    var all := Seqs.Map(ms, ToCitation);
    forall x | x in all
      ensures CleanCitation(x)
    {
      var k :| 0 <= k < |all| && all[k] == x;
      assert all[k] == ToCitation(ms[k]) && ms[k] in ms;
      CleanMatchGivesCleanCitation(ms[k]);
    }
  }

  lemma CleanMatchGivesCleanCitation(m: Match)
    requires CleanGroups(m)
    ensures CleanCitation(ToCitation(m))
  {
  }

  /** `_extract_citations`: the stripped pairs of every match, each pair once,
      in order of first appearance. */
  function ExtractCitations(answer: string): (r: seq<Citation>)
    ensures Seqs.Distinct(r)
    ensures forall x :: x in r <==> x in Seqs.Map(FindAll(answer, 0), ToCitation)
    ensures forall x :: x in r ==> CleanCitation(x)
  {
    CleanMatchesGiveCleanCitations(FindAll(answer, 0));
    Seqs.Dedup(Seqs.Map(FindAll(answer, 0), ToCitation))
  }

  /** Citations are listed in the order in which they first appear. */
  lemma CitationsInFirstAppearanceOrder(answer: string)
    ensures var all := Seqs.Map(FindAll(answer, 0), ToCitation);
      forall i, j :: 0 <= i < j < |ExtractCitations(answer)| ==>
        Seqs.FirstIndex(all, ExtractCitations(answer)[i]) < Seqs.FirstIndex(all, ExtractCitations(answer)[j])
  {
    Seqs.DedupOrder(Seqs.Map(FindAll(answer, 0), ToCitation));
  }

  /** An answer without `[` cites nothing. */
  lemma NoBracketNoCitations(answer: string)
    requires '[' !in answer
    ensures ExtractCitations(answer) == []
  {
    NoBracketNoMatches(answer, 0);
  }

  /** No whitespace at either end. */
  predicate Trimmed(x: string) {
    x != "" ==> !Strings.IsSpace(x[0]) && !Strings.IsSpace(x[|x| - 1])
  }

  /** The tag `[f, l]` in front of `rest`. */
  function Tag(f: string, l: string, rest: string): (s: string)
    ensures |s| == |f| + |l| + 4 + |rest|
    ensures s[0] == '[' && s[|f| + 1] == ',' && s[|f| + 2] == ' ' && s[|f| + |l| + 3] == ']'
    ensures s[1..|f| + 1] == f && s[|f| + 2..|f| + |l| + 3] == " " + l && s[|f| + |l| + 4..] == rest
  {
    "[" + f + ", " + l + "]" + rest
  }

  /** The pattern matches the tag at its bracket, with `f` as the first group
      and the match ending just after the tag. */
  lemma TagMatches(f: string, l: string, rest: string)
    requires f != "" && ',' !in f && ']' !in f && ']' !in l
    ensures MatchAt(Tag(f, l, rest), 0).Some?
    ensures MatchAt(Tag(f, l, rest), 0).value.filename == f
    ensures MatchAt(Tag(f, l, rest), 0).value.comma == |f| + 1
    ensures MatchAt(Tag(f, l, rest), 0).value.end == |f| + |l| + 4
  {
    var s := Tag(f, l, rest);
    assert s[0..] == s;
    TagScan(s, 0, f, l, rest);
  }

  /** A tag followed by text without `[` matches exactly once. */
  lemma TagMatchesOnce(f: string, l: string, rest: string)
    requires f != "" && ',' !in f && ']' !in f && ']' !in l && '[' !in rest
    ensures FindAll(Tag(f, l, rest), 0) == [MatchAt(Tag(f, l, rest), 0).value]
  {
    var s := Tag(f, l, rest);
    TagMatches(f, l, rest);
    var e := |f| + |l| + 4;
    forall k | e <= k < |s|
      ensures s[k] != '['
    {
      assert s[k] == s[e..][k - e];
    }
    NoBracketNoMatches(s, e);
  }

  /** The tag's second group, stripped, is `l` again. */
  lemma TagLocation(f: string, l: string, rest: string)
    requires f != "" && ',' !in f && ']' !in f && ']' !in l && Trimmed(l)
    ensures Strings.Trim(MatchAt(Tag(f, l, rest), 0).value.location) == l
  {
    var s := Tag(f, l, rest);
    TagMatches(f, l, rest);
    var m := MatchAt(s, 0).value;
    MatchedLocation(s, m);
    TagBetween(f, l, rest, m);
    TrimmedAfterBlank(l);
  }

  lemma TagBetween(f: string, l: string, rest: string, m: Match)
    requires f != "" && ',' !in f && ']' !in f && ']' !in l
    requires MatchAt(Tag(f, l, rest), 0) == Some(m)
    ensures m.comma < m.end - 1 <= |Tag(f, l, rest)|
    ensures Tag(f, l, rest)[m.comma + 1..m.end - 1] == " " + l
  {
    TagMatches(f, l, rest);
  }

  lemma TrimmedAfterBlank(l: string)
    requires Trimmed(l)
    ensures Strings.Trim(" " + l) == l
  {
    Strings.TrimLeadingSpace(l);
    Strings.TrimOfTrimmed(l);
  }

  /** The tag the retrieval tool prints, read back: `[f, l]` followed by text
      without another tag gives exactly the citation `(f, l)`, when `f` is a
      non-empty name without `,` or `]`, `l` has no `]`, and neither has
      surrounding whitespace. */
  lemma TagRoundTrip(f: string, l: string, rest: string)
    requires f != "" && ',' !in f && ']' !in f && ']' !in l
    requires Trimmed(f) && Trimmed(l)
    requires '[' !in rest
    ensures ExtractCitations(Tag(f, l, rest)) == [Citation(f, l)]
  {
    TagMatches(f, l, rest);
    TagMatchesOnce(f, l, rest);
    TagLocation(f, l, rest);
    Strings.TrimOfTrimmed(f);
    var m := MatchAt(Tag(f, l, rest), 0).value;
    assert ToCitation(m) == Citation(f, l);
    assert Seqs.Map([m], ToCitation) == [Citation(f, l)];
    assert Seqs.Dedup([Citation(f, l)]) == [Citation(f, l)];
  }

  /** The citations' tags, one after another, followed by `rest`. */
  function Tagged(cs: seq<Citation>, rest: string): string {
    if |cs| == 0 then rest else Tag(cs[0].filename, cs[0].location, Tagged(cs[1..], rest))
  }

  /** A citation its tag gives back: a non-empty filename without `,` or
      `]`, a location without `]`, neither with surrounding whitespace. */
  predicate Restorable(c: Citation) {
    && c.filename != "" && ',' !in c.filename && ']' !in c.filename && ']' !in c.location
    && Trimmed(c.filename) && Trimmed(c.location)
  }

  /** Every citation in `cs` is given back by its tag. */
  predicate AllRestorable(cs: seq<Citation>) {
    forall c :: c in cs ==> Restorable(c)
  }

  /** A tag anywhere in a text matches at its bracket, with `f` as the
      first group, `" " + l` between the comma and the bracket, and the
      match ending just after the tag. */
  lemma TagMatchesAt(s: string, o: nat, f: string, l: string, rest: string)
    requires o <= |s| && s[o..] == Tag(f, l, rest)
    requires f != "" && ',' !in f && ']' !in f && ']' !in l
    ensures MatchAt(s, o).Some?
    ensures MatchAt(s, o).value.filename == f
    ensures MatchAt(s, o).value.comma == o + |f| + 1
    ensures MatchAt(s, o).value.end == o + |f| + |l| + 4
    ensures s[o + |f| + 2..o + |f| + |l| + 3] == " " + l
  {
    TagScan(s, o, f, l, rest);
  }

  /** Where the scan of a tag stops: its comma, then its closing bracket. */
  lemma TagScan(s: string, o: nat, f: string, l: string, rest: string)
    requires o <= |s| && s[o..] == Tag(f, l, rest)
    requires f != "" && ',' !in f && ']' !in f && ']' !in l
    ensures o + |f| + |l| + 3 < |s|
    ensures s[o] == '[' && s[o + |f| + 1] == ',' && s[o + |f| + |l| + 3] == ']'
    ensures s[o + 1..o + |f| + 1] == f && s[o + |f| + 2..o + |f| + |l| + 3] == " " + l
    ensures FirstStop(s, o + 1) == Some(o + |f| + 1)
    ensures FirstClose(s, o + |f| + 2) == Some(o + |f| + |l| + 3)
  {
    var t := Tag(f, l, rest);
    var c, e := o + |f| + 1, o + |f| + |l| + 3;
    assert s[o] == t[0] && s[c] == t[|f| + 1] && s[e] == t[|f| + |l| + 3];
    Seqs.SliceOfDrop(s, o, 1, |f| + 1);
    Seqs.SliceOfDrop(s, o, |f| + 2, |f| + |l| + 3);
    FirstStopAfterRun(s, o + 1, c);
    FirstCloseAfterRun(s, c + 1, e);
  }

  /** After a run without `,` or `]`, the first stop is the character
      ending the run. */
  lemma FirstStopAfterRun(s: string, from: nat, to: nat)
    requires from <= to < |s| && Stop(s[to])
    requires ',' !in s[from..to] && ']' !in s[from..to]
    ensures FirstStop(s, from) == Some(to)
  {
    forall k | from <= k < to
      ensures !Stop(s[k])
    {
      assert s[k] == s[from..to][k - from];
    }
  }

  /** After a run without `]`, the first `]` is the character ending the run. */
  lemma FirstCloseAfterRun(s: string, from: nat, to: nat)
    requires from <= to < |s| && s[to] == ']'
    requires ']' !in s[from..to]
    ensures FirstClose(s, from) == Some(to)
  {
    forall k | from <= k < to
      ensures s[k] != ']'
    {
      assert s[k] == s[from..to][k - from];
    }
  }

  /** The match at a tag's bracket gives the tag's citation back and ends
      just after the tag. */
  lemma TagCitedAt(s: string, o: nat, f: string, l: string, rest: string)
    requires o <= |s| && s[o..] == Tag(f, l, rest)
    requires Restorable(Citation(f, l))
    ensures MatchAt(s, o).Some?
    ensures MatchAt(s, o).value.end == o + |f| + |l| + 4
    ensures ToCitation(MatchAt(s, o).value) == Citation(f, l)
  {
    TagMatchesAt(s, o, f, l, rest);
    var m := MatchAt(s, o).value;
    assert s[m.comma + 1..m.end - 1] == " " + l;
    MatchedLocation(s, m);
    TrimmedAfterBlank(l);
    Strings.TrimOfTrimmed(f);
  }

  /** Scanning from a tag finds its citation first, then whatever scanning
      from the end of the tag finds. */
  lemma TagFoundFirst(s: string, o: nat, c: Citation, more: string) returns (next: nat)
    requires o <= |s| && s[o..] == Tag(c.filename, c.location, more)
    requires Restorable(c)
    ensures next == o + |c.filename| + |c.location| + 4 <= |s|
    ensures Seqs.Map(FindAll(s, o), ToCitation) == [c] + Seqs.Map(FindAll(s, next), ToCitation)
  {
    assert c == Citation(c.filename, c.location);
    TagCitedAt(s, o, c.filename, c.location, more);
    var m := MatchAt(s, o).value;
    CitedFirst(s, o, m);
    next := m.end;
  }

  /** What follows a tag in the text is what followed it in the tag. */
  lemma AfterTag(s: string, o: nat, f: string, l: string, more: string, next: nat)
    requires o <= |s| && s[o..] == Tag(f, l, more)
    requires next == o + |f| + |l| + 4
    ensures next <= |s| && s[next..] == more
  {
    Seqs.DropDrop(s, o, |f| + |l| + 4);
  }

  /** The citation of a match at the scan position comes first. */
  lemma CitedFirst(s: string, i: nat, m: Match)
    requires i < |s| && MatchAt(s, i) == Some(m)
    ensures Seqs.Map(FindAll(s, i), ToCitation) == [ToCitation(m)] + Seqs.Map(FindAll(s, m.end), ToCitation)
  {
    FindAllAtMatch(s, i, m);
    Seqs.MapCons(m, FindAll(s, m.end), ToCitation);
  }

  /** Scanning a run of tags followed by text without `[` finds the tags'
      citations, in order. */
  lemma {:induction false} TagsFound(s: string, o: nat, cs: seq<Citation>, rest: string)
    requires o <= |s| && s[o..] == Tagged(cs, rest)
    requires AllRestorable(cs)
    requires '[' !in rest
    ensures Seqs.Map(FindAll(s, o), ToCitation) == cs
    decreases |cs|
  {
    if |cs| == 0 {
      forall k | o <= k < |s|
        ensures s[k] != '['
      {
        assert s[k] == rest[k - o];
      }
      NoBracketNoMatches(s, o);
    } else {
      var c, more := cs[0], Tagged(cs[1..], rest);
      assert c in cs && c == Citation(c.filename, c.location);
      assert Restorable(c) && AllRestorable(cs[1..]) by {
        assert forall x :: x in cs[1..] ==> x in cs;
      }
      var next := TagFoundFirst(s, o, c, more);
      AfterTag(s, o, c.filename, c.location, more, next);
      TagsFound(s, next, cs[1..], rest);
      Seqs.HeadTail(cs);
    }
  }

  /** The retrieval tool's tags, read back: a run of tags followed by text
      without `[` cites exactly the tags' citations, each once, in order of
      first appearance. */
  lemma TagsRoundTrip(cs: seq<Citation>, rest: string)
    requires AllRestorable(cs)
    requires '[' !in rest
    ensures ExtractCitations(Tagged(cs, rest)) == Seqs.Dedup(cs)
  {
    var s := Tagged(cs, rest);
    TagsFound(s, 0, cs, rest);
  }

  /** Two tags in a row cite both, or one citation when they are the same. */
  lemma TwoTagsCitedBoth(f1: string, l1: string, f2: string, l2: string, rest: string)
    requires Restorable(Citation(f1, l1)) && Restorable(Citation(f2, l2))
    requires '[' !in rest
    ensures var c1, c2 := Citation(f1, l1), Citation(f2, l2);
      ExtractCitations(Tag(f1, l1, Tag(f2, l2, rest))) == if c1 == c2 then [c1] else [c1, c2]
  {
    var c1, c2 := Citation(f1, l1), Citation(f2, l2);
    var cs := [c1, c2];
    assert cs[1..] == [c2] && [c2][1..] == [];
    assert Tagged([c2], rest) == Tag(f2, l2, Tagged([], rest));
    assert Tagged(cs, rest) == Tag(f1, l1, Tag(f2, l2, rest));
    assert AllRestorable(cs);
    TagsRoundTrip(cs, rest);
    Seqs.DedupPair(c1, c2);
  }

  const Separator: string := "\n\n---\n\n"
  const ErrorPrefix: string := "Error retrieving documents: "

  /** The block the retrieval tool prints for one document: its citation tag
      on the first line, then the content. A missing source prints as
      `Unknown` and a missing location as nothing. */
  function FormatDocument(d: VectorStore.Document): (r: string)
    ensures |r| > |d.pageContent| + 1 && r[0] == '['
    ensures r[|r| - |d.pageContent|..] == d.pageContent
    ensures r[|r| - |d.pageContent| - 1] == '\n'
    ensures r[..|r| - |d.pageContent| - 1] == "[" + d.metadata.source.GetOr("Unknown") + ", " + d.metadata.location.GetOr("") + "]"
  {
    var header := "[" + d.metadata.source.GetOr("Unknown") + ", " + d.metadata.location.GetOr("") + "]";
    var r := header + "\n" + d.pageContent;
    assert r[..|header|] == header;
    r
  }

  /** The documents' blocks joined by `sep`: each document's block in
      order, `sep` between consecutive blocks, and nothing after the last
      block. */
  function FormatBlocks(docs: seq<VectorStore.Document>, sep: string): (r: string)
    ensures |docs| == 0 <==> r == ""
    ensures var blocks := Seqs.Map(docs, FormatDocument);
      (forall i :: 0 <= i < |docs| ==> Strings.OccursAt(r, blocks[i], Strings.JoinOffset(blocks, sep, i))) &&
      Strings.SeparatorsAt(r, blocks, sep) &&
      (|docs| > 0 ==> |r| == Strings.JoinOffset(blocks, sep, |docs| - 1) + |blocks[|docs| - 1]|)
  {
    var blocks := Seqs.Map(docs, FormatDocument);
    Strings.JoinPiecesAt(blocks, sep);
    Strings.JoinSeparatorsAt(blocks, sep);
    if |docs| > 0 then
      Strings.JoinLength(blocks, sep);
      Strings.Join(blocks, sep)
    else Strings.Join(blocks, sep)
  }

  /** `retrieve_documents`: the four best documents of the client, formatted
      and separated, or the error text when retrieval fails. */
  function RetrieveDocuments(
    initialized: bool, query: string, clientDocId: string,
    similaritySearch: (string, int) -> Result<seq<VectorStore.Document>, string>): (r: string)
    ensures VectorStore.SearchByClient(initialized, query, clientDocId, 4, similaritySearch).Failure? ==>
      r == ErrorPrefix + VectorStore.SearchByClient(initialized, query, clientDocId, 4, similaritySearch).error
    ensures !initialized ==> r == ErrorPrefix + VectorStore.NotInitializedMessage
    ensures VectorStore.SearchByClient(initialized, query, clientDocId, 4, similaritySearch).Success? ==>
      r == FormatBlocks(VectorStore.SearchByClient(initialized, query, clientDocId, 4, similaritySearch).value, Separator)
  {
    match VectorStore.SearchByClient(initialized, query, clientDocId, 4, similaritySearch)
    case Failure(e) => ErrorPrefix + e
    case Success(docs) => FormatBlocks(docs, Separator)
  }

  /** A retrieved document whose source and location are clean, and whose
      content opens no other tag, is cited back as its own source and
      location. */
  lemma RetrievedDocumentCitedBack(d: VectorStore.Document, source: string, location: string)
    requires d.metadata.source == Some(source) && d.metadata.location == Some(location)
    requires source != "" && ',' !in source && ']' !in source && ']' !in location
    requires Trimmed(source) && Trimmed(location)
    requires '[' !in d.pageContent
    ensures ExtractCitations(FormatDocument(d)) == [Citation(source, location)]
  {
    var rest := "\n" + d.pageContent;
    assert '[' !in rest;
    assert FormatDocument(d) == Tag(source, location, rest);
    TagRoundTrip(source, location, rest);
  }
}
