/** The overview dashboard (`app/dashboard/page.tsx`): the sort state and its
    header clicks, the row comparator and the sorted view, the innocence level
    and its colour, the expiry of "new" tags, and the list after a delete.
    Dates are given as their millisecond time value. */
module Dashboard {
  import opened Wrappers
  import Strings
  import Seqs
  import CaseTypes
  import AnalysisStorage

  datatype AnalysisListItem = AnalysisListItem(
    id: string,
    caseName: string,
    personName: string,
    riskScore: real,
    createdAt: int)

  datatype SortColumn = CaseName | Date | Score | Assessment

  datatype SortDirection = Asc | Desc

  datatype SortState = SortState(column: SortColumn, direction: SortDirection)

  /** The state on first render: newest first. */
  const InitialSort: SortState := SortState(Date, Desc)

  /** `handleSort`: clicking the active column flips the direction; any other
      column becomes active, ascending. */
  function HandleSort(st: SortState, column: SortColumn): (r: SortState)
    ensures r.column == column
    ensures st.column == column ==> r.direction != st.direction
    ensures st.column != column ==> r.direction == Asc
  {
    if st.column == column then SortState(column, if st.direction == Asc then Desc else Asc)
    else SortState(column, Asc)
  }

  /** Two clicks on the active column restore the state; two clicks on a new
      column leave it active and descending. */
  lemma SortClicksTwice(st: SortState, column: SortColumn)
    ensures st.column == column ==> HandleSort(HandleSort(st, column), column) == st
    ensures st.column != column ==> HandleSort(HandleSort(st, column), column) == SortState(column, Desc)
  {
  }

  /** The value a column compares: the lowercased case name, or a number. */
  datatype SortKey = Text(text: string) | Number(number: real)

  function KeyOf(item: AnalysisListItem, column: SortColumn): (k: SortKey)
    ensures column == CaseName <==> k.Text?
    ensures column == CaseName ==> k.text == Strings.Lower(item.caseName)
    ensures column == Date ==> k == Number(item.createdAt as real)
    ensures column == Score || column == Assessment ==> k == Number(item.riskScore)
  {
    match column
    case CaseName => Text(Strings.Lower(item.caseName))
    case Date => Number(item.createdAt as real)
    case Score => Number(item.riskScore)
    case Assessment => Number(item.riskScore)
  }

  /** JavaScript `<` on strings: lexicographic by character. */
  predicate LexLess(a: string, b: string)
    decreases |a|
  {
    if |a| == 0 then |b| > 0
    else if |b| == 0 then false
    else if a[0] != b[0] then a[0] < b[0]
    else LexLess(a[1..], b[1..])
  }

  lemma {:induction false} LexIrreflexive(a: string)
    ensures !LexLess(a, a)
  {
    if |a| > 0 {
      LexIrreflexive(a[1..]);
    }
  }

  lemma {:induction false} LexTrichotomy(a: string, b: string)
    ensures a == b || LexLess(a, b) || LexLess(b, a)
  {
    if |a| > 0 && |b| > 0 && a[0] == b[0] {
      LexTrichotomy(a[1..], b[1..]);
      if a[1..] == b[1..] {
        assert a == [a[0]] + a[1..];
        assert b == [b[0]] + b[1..];
      }
    }
  }

  lemma {:induction false} LexTransitive(a: string, b: string, c: string)
    requires LexLess(a, b) && LexLess(b, c)
    ensures LexLess(a, c)
  {
    if |a| > 0 && |b| > 0 && |c| > 0 && a[0] == b[0] && b[0] == c[0] {
      LexTransitive(a[1..], b[1..], c[1..]);
    }
  }

  predicate KeyLess(a: SortKey, b: SortKey) {
    match (a, b)
    case (Text(x), Text(y)) => LexLess(x, y)
    case (Number(x), Number(y)) => x < y
    case _ => false
  }

  /** The comparator passed to `sort`: -1, 0 or 1. */
  function Compare(a: AnalysisListItem, b: AnalysisListItem, st: SortState): (r: int)
    ensures -1 <= r <= 1
  {
    var ka := KeyOf(a, st.column);
    var kb := KeyOf(b, st.column);
    if KeyLess(ka, kb) then (if st.direction == Asc then -1 else 1)
    else if KeyLess(kb, ka) then (if st.direction == Asc then 1 else -1)
    else 0
  }

  /** `a` may stand before `b` in the sorted view. */
  predicate NotAfter(a: AnalysisListItem, b: AnalysisListItem, st: SortState) {
    Compare(a, b, st) <= 0
  }

  /** The comparator is antisymmetric in sign and a total preorder, so the
      sorted view is well defined up to ties. */
  lemma CompareProperties(a: AnalysisListItem, b: AnalysisListItem, c: AnalysisListItem, st: SortState)
    ensures Compare(a, b, st) == -Compare(b, a, st)
    ensures NotAfter(a, b, st) || NotAfter(b, a, st)
    ensures NotAfter(a, b, st) && NotAfter(b, c, st) ==> NotAfter(a, c, st)
  {
    var ka, kb, kc := KeyOf(a, st.column), KeyOf(b, st.column), KeyOf(c, st.column);
    KeyAsymmetric(ka, kb);
    KeyAsymmetric(kb, kc);
    KeyAsymmetric(ka, kc);
    KeyNegativeTransitive(ka, kb, kc);
    KeyNegativeTransitive(kc, kb, ka);
  }

  lemma KeyAsymmetric(x: SortKey, y: SortKey)
    ensures !(KeyLess(x, y) && KeyLess(y, x))
  {
    if x.Text? && y.Text? && KeyLess(x, y) && KeyLess(y, x) {
      LexTransitive(x.text, y.text, x.text);
      LexIrreflexive(x.text);
    }
  }

  /** Keys of one column are totally ordered, so not-less is transitive. */
  lemma KeyNegativeTransitive(x: SortKey, y: SortKey, z: SortKey)
    requires x.Text? == y.Text? == z.Text?
    ensures KeyLess(z, x) ==> KeyLess(z, y) || KeyLess(y, x)
  {
    if x.Text? && KeyLess(z, x) && !KeyLess(z, y) {
      LexTrichotomy(y.text, z.text);
      if y.text != z.text {
        LexTransitive(y.text, z.text, x.text);
      }
    }
  }

  predicate SortedBy(s: seq<AnalysisListItem>, st: SortState) {
    forall i, j :: 0 <= i < j < |s| ==> NotAfter(s[i], s[j], st)
  }

  /** Insertion of one row in front of the first row that must follow it. */
  function Insert(x: AnalysisListItem, s: seq<AnalysisListItem>, st: SortState): (r: seq<AnalysisListItem>)
    requires SortedBy(s, st)
    ensures multiset(r) == multiset(s) + multiset{x}
    ensures SortedBy(r, st)
  {
    if |s| == 0 then [x]
    else if NotAfter(x, s[0], st) then
      assert forall j :: 0 <= j < |s| ==> NotAfter(x, s[j], st) by {
        forall j | 0 < j < |s|
          ensures NotAfter(x, s[j], st)
        {
          CompareProperties(x, s[0], s[j], st);
        }
      }
      SortedCons(x, s, st);
      [x] + s
    else
      var rest := Insert(x, s[1..], st);
      assert s == [s[0]] + s[1..];
      HeadBeforeInserted(x, s, rest, st);
      SortedCons(s[0], rest, st);
      [s[0]] + rest
  }

  /** A row that may precede every row of a sorted list may be put in front of it. */
  lemma SortedCons(h: AnalysisListItem, t: seq<AnalysisListItem>, st: SortState)
    requires SortedBy(t, st)
    requires forall j :: 0 <= j < |t| ==> NotAfter(h, t[j], st)
    ensures SortedBy([h] + t, st)
  {
    var r := [h] + t;
    forall i, j | 0 <= i < j < |r|
      ensures NotAfter(r[i], r[j], st)
    {
      assert r[j] == t[j - 1];
      if i > 0 {
        assert r[i] == t[i - 1];
      }
    }
  }

  /** The head of a sorted list, which the new row must follow, may precede
      every row of the tail with the new row inserted. */
  lemma HeadBeforeInserted(x: AnalysisListItem, s: seq<AnalysisListItem>, rest: seq<AnalysisListItem>, st: SortState)
    requires |s| > 0 && SortedBy(s, st) && !NotAfter(x, s[0], st)
    requires multiset(rest) == multiset(s[1..]) + multiset{x}
    ensures forall j :: 0 <= j < |rest| ==> NotAfter(s[0], rest[j], st)
  {
    CompareProperties(x, s[0], x, st);
    forall j | 0 <= j < |rest|
      ensures NotAfter(s[0], rest[j], st)
    {
      var y := rest[j];
      assert y in multiset(rest);
      if y != x {
        assert y in multiset(s[1..]);
        var k :| 0 <= k < |s[1..]| && s[1..][k] == y;
        assert s[k + 1] == y;
      }
    }
  }

  /** `getSortedAnalyses`: a sorted copy of the list; the list itself is a
      value and stays as it was. */
  function SortedAnalyses(items: seq<AnalysisListItem>, st: SortState): (r: seq<AnalysisListItem>)
    ensures multiset(r) == multiset(items)
    ensures |r| == |items|
    ensures SortedBy(r, st)
  {
    if |items| == 0 then []
    else
      assert items == [items[0]] + items[1..];
      Insert(items[0], SortedAnalyses(items[1..], st), st)
  }

  /** Sorting by score and sorting by assessment give the same view. */
  lemma ScoreAndAssessmentAgree(items: seq<AnalysisListItem>, d: SortDirection)
    ensures SortedAnalyses(items, SortState(Score, d)) == SortedAnalyses(items, SortState(Assessment, d))
  {
    assert forall a, b :: Compare(a, b, SortState(Score, d)) == Compare(a, b, SortState(Assessment, d));
    SameComparatorSameSort(items, SortState(Score, d), SortState(Assessment, d));
  }

  lemma {:induction false} SameComparatorSameSort(items: seq<AnalysisListItem>, s1: SortState, s2: SortState)
    requires forall a, b :: Compare(a, b, s1) == Compare(a, b, s2)
    ensures SortedAnalyses(items, s1) == SortedAnalyses(items, s2)
  {
    if |items| > 0 {
      SameComparatorSameSort(items[1..], s1, s2);
      SameComparatorSameInsert(items[0], SortedAnalyses(items[1..], s1), s1, s2);
    }
  }

  lemma {:induction false} SameComparatorSameInsert(x: AnalysisListItem, s: seq<AnalysisListItem>, s1: SortState, s2: SortState)
    requires forall a, b :: Compare(a, b, s1) == Compare(a, b, s2)
    requires SortedBy(s, s1)
    ensures SortedBy(s, s2)
    ensures Insert(x, s, s1) == Insert(x, s, s2)
  {
    if |s| > 0 && !NotAfter(x, s[0], s1) {
      SameComparatorSameInsert(x, s[1..], s1, s2);
    }
  }

  /** The verdict shown beside the score. */
  datatype InnocenceLevel = LikelyInnocent | Uncertain | LikelyGuilty

  /** `getInnocenceLevel`. */
  function InnocenceLevelOf(score: real): (r: InnocenceLevel)
    ensures r == LikelyInnocent <==> score >= 70.0
    ensures r == Uncertain <==> 40.0 <= score < 70.0
    ensures r == LikelyGuilty <==> score < 40.0
  {
    if score >= 70.0 then LikelyInnocent
    else if score >= 40.0 then Uncertain
    else LikelyGuilty
  }

  function LevelLabel(level: InnocenceLevel): string {
    match level
    case LikelyInnocent => "Likely Innocent"
    case Uncertain => "Uncertain"
    case LikelyGuilty => "Likely Guilty"
  }

  /** `getInnocenceColor`, a separate threshold chain in the source. */
  function InnocenceColor(score: real): (r: string)
    ensures r == "text-green-400" <==> score >= 70.0
    ensures r == "text-red-400" <==> score < 40.0
  {
    if score >= 70.0 then "text-green-400"
    else if score >= 40.0 then "text-yellow-400"
    else "text-red-400"
  }

  function LevelColor(level: InnocenceLevel): string {
    match level
    case LikelyInnocent => "text-green-400"
    case Uncertain => "text-yellow-400"
    case LikelyGuilty => "text-red-400"
  }

  /** The two threshold chains agree: the colour is the level's colour, and
      different levels have different colours and labels. */
  lemma ColourAgreesWithLevel(score: real, other: real)
    ensures InnocenceColor(score) == LevelColor(InnocenceLevelOf(score))
    ensures InnocenceLevelOf(score) != InnocenceLevelOf(other) ==>
      InnocenceColor(score) != InnocenceColor(other) &&
      LevelLabel(InnocenceLevelOf(score)) != LevelLabel(InnocenceLevelOf(other))
  {
  }

  /** The first effect on mount, for the record list: in a browser the
      `verijudex_analyses` slot is removed, so nothing is stored there; outside
      a browser nothing happens. */
  function ClearStoredRecords(st: AnalysisStorage.Storage): (r: AnalysisStorage.Storage)
    ensures r.inBrowser == st.inBrowser
    ensures st.inBrowser ==> r.slot.Missing?
    ensures !st.inBrowser ==> r == st
  {
    if st.inBrowser then AnalysisStorage.Storage(true, AnalysisStorage.Missing) else st
  }

  /** After the dashboard mounts, the browser-side list reads as empty, and the
      next save leaves exactly the record it saves: nothing stored earlier
      can be read back. */
  lemma MountForgetsStoredRecords(
    st: AnalysisStorage.Storage, caseName: string, analysis: CaseTypes.CaseAnalysis,
    now: nat, suffix: string, createdAt: string)
    ensures AnalysisStorage.GetAll(ClearStoredRecords(st)) == []
    ensures st.inBrowser ==>
      var (id, after) := AnalysisStorage.Save(ClearStoredRecords(st), caseName, analysis, now, suffix, createdAt);
      AnalysisStorage.GetAll(after) == [AnalysisStorage.AnalysisRecord(id, caseName, createdAt, analysis.riskScore, analysis)]
  {
  }

  /** Five minutes in milliseconds. */
  const TagLifetime: int := 5 * 60 * 1000

  /** The stored "new" tags: record id paired with the time it was tagged. */
  type Tags = seq<(string, int)>

  predicate Expired(tag: (string, int), now: int) {
    now - tag.1 > TagLifetime
  }

  function Fresh(now: int): ((string, int)) -> bool {
    (tag: (string, int)) => !Expired(tag, now)
  }

  function TagIds(tags: Tags): (r: set<string>)
    ensures forall id :: id in r <==> exists i :: 0 <= i < |tags| && tags[i].0 == id
  {
    set i | 0 <= i < |tags| :: tags[i].0
  }

  /** The outcome of one cleanup: what is written back, if anything, and the
      set of ids shown with a "new" badge. */
  datatype Cleanup = Cleanup(written: Option<Tags>, shown: set<string>)

  /** `cleanupExpiredNewTags` with the stored tags already parsed: nothing
      stored leaves the shown set as it was; otherwise expired tags are
      dropped, the rest written back only when something was dropped, and the
      shown set becomes the remaining ids. */
  function CleanupTags(stored: Option<Tags>, now: int, shown: set<string>): (r: Cleanup)
    ensures stored.None? ==> r == Cleanup(None, shown)
    ensures stored.Some? ==>
      && (r.written.Some? <==> exists i :: 0 <= i < |stored.value| && Expired(stored.value[i], now))
      && (r.written.Some? ==> r.written.value == Seqs.Filter(stored.value, Fresh(now)))
      && (forall id :: id in r.shown <==> exists t :: t in stored.value && t.0 == id && !Expired(t, now))
  {
    match stored
    case None => Cleanup(None, shown)
    case Some(tags) =>
      var remaining := Seqs.Filter(tags, Fresh(now));
      var changed := |remaining| < |tags|;
      FilterShorterIffDropped(tags, now);
      var ids := TagIds(remaining);
      assert forall id :: id in ids <==> exists t :: t in tags && t.0 == id && !Expired(t, now) by {
        forall id
          ensures id in ids <==> exists t :: t in tags && t.0 == id && !Expired(t, now)
        {
          if id in ids {
            var i :| 0 <= i < |remaining| && remaining[i].0 == id;
            assert remaining[i] in remaining;
          }
          if exists t :: t in tags && t.0 == id && !Expired(t, now) {
            var t :| t in tags && t.0 == id && !Expired(t, now);
            assert Fresh(now)(t);
            var i :| 0 <= i < |remaining| && remaining[i] == t;
          }
        }
      }
      Cleanup(if changed then Some(remaining) else None, ids)
  }

  /** Filtering out the expired tags shortens the list exactly when some tag
      has expired. */
  lemma {:induction false} FilterShorterIffDropped(tags: Tags, now: int)
    ensures |Seqs.Filter(tags, Fresh(now))| < |tags| <==> exists i :: 0 <= i < |tags| && Expired(tags[i], now)
  {
    if |tags| > 0 {
      FilterShorterIffDropped(tags[1..], now);
      if exists i :: 0 <= i < |tags[1..]| && Expired(tags[1..][i], now) {
        var i :| 0 <= i < |tags[1..]| && Expired(tags[1..][i], now);
        assert Expired(tags[i + 1], now);
      }
      if exists i :: 0 <= i < |tags| && Expired(tags[i], now) {
        var i :| 0 <= i < |tags| && Expired(tags[i], now);
        if i > 0 {
          assert Expired(tags[1..][i - 1], now);
        }
      }
    }
  }

  /** Running the cleanup again at the same time, on what the first run
      left stored, writes nothing and shows the same ids. */
  lemma CleanupIdempotent(tags: Tags, now: int, shown: set<string>)
    ensures var first := CleanupTags(Some(tags), now, shown);
      var second := CleanupTags(Some(first.written.GetOr(tags)), now, first.shown);
      second.written.None? && second.shown == first.shown
  {
    var first := CleanupTags(Some(tags), now, shown);
    var next := first.written.GetOr(tags);
    if first.written.Some? {
      Seqs.FilterIdempotent(tags, Fresh(now));
    } else {
      FilterShorterIffDropped(tags, now);
      Seqs.FilterKeepsAll(tags, Fresh(now));
    }
    assert Seqs.Filter(next, Fresh(now)) == next;
    assert forall t :: t in next ==> !Expired(t, now);
    var second := CleanupTags(Some(next), now, first.shown);
    FilterShorterIffDropped(next, now);
    assert second.written.None?;
  }

  /** The list after a delete: on success every row with the id goes and the
      rest keep their order; on failure the list is unchanged. */
  function AfterDelete(items: seq<AnalysisListItem>, id: string, ok: bool): (r: seq<AnalysisListItem>)
    ensures !ok ==> r == items
    ensures ok ==> forall x :: x in r <==> x in items && x.id != id
  {
    if ok then Seqs.Filter(items, (x: AnalysisListItem) => x.id != id) else items
  }

  /** Deleting keeps the surviving rows in their order: deleting from a
      concatenation is deleting from each part. */
  lemma DeleteKeepsOrder(front: seq<AnalysisListItem>, back: seq<AnalysisListItem>, id: string)
    ensures AfterDelete(front + back, id, true) == AfterDelete(front, id, true) + AfterDelete(back, id, true)
  {
    Seqs.FilterAppend(front, back, (x: AnalysisListItem) => x.id != id);
  }
}
