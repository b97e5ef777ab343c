/** The browser-side record list of `lib/analysisStorage.ts`: one storage slot
    holding the serialised list of saved analyses, newest first. The slot is
    modelled by what reading it back yields: nothing stored, a value that does
    not parse, or the record list itself. */
module AnalysisStorage {
  import opened Wrappers
  import Strings
  import Seqs
  import CaseTypes

  const StorageKey: string := "verijudex_analyses"

  datatype AnalysisRecord = AnalysisRecord(
    id: string,
    caseName: string,
    createdAt: string,
    riskScore: real,
    analysis: CaseTypes.CaseAnalysis)

  /** The storage slot: absent or empty (both falsy), unparseable, or a list. */
  datatype Slot = Missing | Unparseable | Records(records: seq<AnalysisRecord>)

  /** Whether the code runs in a browser (`typeof window !== 'undefined'`). */
  datatype Storage = Storage(inBrowser: bool, slot: Slot)

  /** `getAllAnalyses`: the stored list, or empty when storage is unavailable,
      nothing is stored or the value does not parse. */
  function GetAll(st: Storage): (r: seq<AnalysisRecord>)
    ensures !st.inBrowser ==> r == []
    ensures st.slot.Missing? || st.slot.Unparseable? ==> r == []
    ensures st.inBrowser && st.slot.Records? ==> r == st.slot.records
  {
    if !st.inBrowser then []
    else match st.slot
      case Missing => []
      case Unparseable => []
      case Records(rs) => rs
  }

  /** `case-${now}-${suffix}` where the suffix is the random part. */
  function NewId(now: nat, suffix: string): (id: string)
    ensures |id| > 5 && id[..5] == "case-"
  {
    "case-" + Strings.NatToString(now) + "-" + suffix
  }

  /** Two saves at different times get different ids, whatever their random
      suffixes: the time is everything between the first two dashes. */
  lemma DifferentTimesDifferentIds(now1: nat, now2: nat, s1: string, s2: string)
    requires now1 != now2
    ensures NewId(now1, s1) != NewId(now2, s2)
  {
    var a := Strings.NatToString(now1);
    var b := Strings.NatToString(now2);
    if NewId(now1, s1) == NewId(now2, s2) {
      assert "case-" + a + "-" + s1 == "case-" + (a + "-" + s1);
      assert "case-" + b + "-" + s2 == "case-" + (b + "-" + s2);
      assert a + "-" + s1 == b + "-" + s2;
      SameBeforeFirstDash(a, b, s1, s2);
      Strings.NatToStringInjective(now1, now2);
    }
  }

  lemma SameBeforeFirstDash(a: string, b: string, s1: string, s2: string)
    requires '-' !in a && '-' !in b
    requires a + "-" + s1 == b + "-" + s2
    ensures a == b
  {
    var s := a + "-" + s1;
    var t := b + "-" + s2;
    DashAt(a, s1);
    DashAt(b, s2);
    if |a| == |b| {
      assert a == s[..|a|];
      assert b == t[..|b|];
    }
  }

  /** In `a + "-" + s`, the dash sits right after `a`. */
  lemma DashAt(a: string, s: string)
    ensures (a + "-" + s)[|a|] == '-'
    ensures forall i :: 0 <= i < |a| ==> (a + "-" + s)[i] == a[i]
  {
  }

  /** `saveAnalysis` in the browser: a new record is put in front of whatever
      the list read back as, and its id is returned. */
  function Save(st: Storage, caseName: string, analysis: CaseTypes.CaseAnalysis, now: nat, suffix: string, createdAt: string): (r: (string, Storage))
    requires st.inBrowser
    ensures r.1.inBrowser && r.1.slot.Records?
    ensures |r.1.slot.records| == |GetAll(st)| + 1
    ensures r.1.slot.records[0] == AnalysisRecord(r.0, caseName, createdAt, analysis.riskScore, analysis)
    ensures r.1.slot.records[1..] == GetAll(st)
  {
    var id := NewId(now, suffix);
    var record := AnalysisRecord(id, caseName, createdAt, analysis.riskScore, analysis);
    (id, Storage(true, Records([record] + GetAll(st))))
  }

  /** `getAnalysisById`: the first record with the id, or null. */
  function GetById(st: Storage, id: string): (r: Option<AnalysisRecord>)
    ensures r.None? <==> forall i :: 0 <= i < |GetAll(st)| ==> GetAll(st)[i].id != id
    ensures r.Some? ==> exists i :: FirstWithId(GetAll(st), id, i) && GetAll(st)[i] == r.value
  {
    FindById(GetAll(st), id)
  }

  /** Position `i` holds the first record carrying `id`. */
  predicate FirstWithId(records: seq<AnalysisRecord>, id: string, i: int) {
    0 <= i < |records| && records[i].id == id && forall k :: 0 <= k < i ==> records[k].id != id
  }

  function FindById(records: seq<AnalysisRecord>, id: string): (r: Option<AnalysisRecord>)
    ensures r.None? <==> forall i :: 0 <= i < |records| ==> records[i].id != id
    ensures r.Some? ==> exists i :: FirstWithId(records, id, i) && records[i] == r.value
  {
    if |records| == 0 then None
    else if records[0].id == id then
      assert FirstWithId(records, id, 0);
      Some(records[0])
    else
      var r := FindById(records[1..], id);
      assert r.Some? ==> exists i :: FirstWithId(records, id, i) && records[i] == r.value by {
        if r.Some? {
          var i :| FirstWithId(records[1..], id, i) && records[1..][i] == r.value;
          forall k | 0 < k < i + 1
            ensures records[k].id != id
          {
            assert records[k] == records[1..][k - 1];
          }
          assert FirstWithId(records, id, i + 1);
        }
      }
      r
  }

  /** Looking up the id a save returned yields the new record, whatever was
      stored before, since the new record comes first. */
  lemma SaveThenGet(st: Storage, caseName: string, analysis: CaseTypes.CaseAnalysis, now: nat, suffix: string, createdAt: string)
    requires st.inBrowser
    ensures var (id, st') := Save(st, caseName, analysis, now, suffix, createdAt);
      GetById(st', id) == Some(AnalysisRecord(id, caseName, createdAt, analysis.riskScore, analysis))
  {
  }

  /** A value that does not parse is replaced by a list holding only the new
      record: the unreadable data is overwritten. */
  lemma SaveOverUnparseable(caseName: string, analysis: CaseTypes.CaseAnalysis, now: nat, suffix: string, createdAt: string)
    ensures var (id, st') := Save(Storage(true, Unparseable), caseName, analysis, now, suffix, createdAt);
      GetAll(st') == [AnalysisRecord(id, caseName, createdAt, analysis.riskScore, analysis)]
  {
  }

  function KeepOthers(id: string): AnalysisRecord -> bool {
    (rec: AnalysisRecord) => rec.id != id
  }

  /** `deleteAnalysis` in the browser: every record with the id is dropped and
      the rest are written back in order. */
  function Delete(st: Storage, id: string): (st': Storage)
    requires st.inBrowser
    ensures st'.inBrowser && st'.slot.Records?
    ensures GetAll(st') == Seqs.Filter(GetAll(st), KeepOthers(id))
    ensures forall rec :: rec in GetAll(st') <==> rec in GetAll(st) && rec.id != id
    ensures GetById(st', id) == None
  {
    Storage(true, Records(Seqs.Filter(GetAll(st), KeepOthers(id))))
  }

  /** Deleting twice is deleting once. */
  lemma DeleteIdempotent(st: Storage, id: string)
    requires st.inBrowser
    ensures Delete(Delete(st, id), id) == Delete(st, id)
  {
    Seqs.FilterIdempotent(GetAll(st), KeepOthers(id));
  }

  /** Deleting an id no record carries rewrites the same list. */
  lemma DeleteAbsentKeepsList(st: Storage, id: string)
    requires st.inBrowser
    requires GetById(st, id).None?
    ensures GetAll(Delete(st, id)) == GetAll(st)
  {
    Seqs.FilterKeepsAll(GetAll(st), KeepOthers(id));
  }
}
