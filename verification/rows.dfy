/** The persisted shape of one analysis: a parent `Analysis` row and six child
    collections whose rows carry the parent's `analysisId`; and the read-back
    that turns the stored rows into an analysis again for the detail page. */
module Rows {
  import opened Wrappers
  import opened CaseTypes
  import Seqs

  datatype ParentRow = ParentRow(
    caseName: string,
    personName: Option<string>,
    crimeConvicted: Option<string>,
    innocenceClaim: Option<string>,
    paroleBoardFocus: Option<string>,
    summary: Option<string>,
    riskScore: Option<real>)

  datatype KeyQuoteRow = KeyQuoteRow(analysisId: string, quote: string, lineNumber: string, context: string)

  datatype TimelineEventRow = TimelineEventRow(analysisId: string, date: string, event: string, confidence: real)

  datatype InconsistencyRow = InconsistencyRow(
    analysisId: string,
    statement1: string,
    source1: string,
    statement2: string,
    source2: string,
    analysis: string)

  datatype EvidenceItemRow = EvidenceItemRow(
    analysisId: string,
    evidence: string,
    evidenceType: string,
    reliability: EvidenceReliability,
    notes: string)

  datatype PrecedentCaseRow = PrecedentCaseRow(analysisId: string, caseName: string, summary: string, outcome: string)

  datatype CriticalAlertRow = CriticalAlertRow(analysisId: string, title: string, description: string, severity: AlertSeverity)

  /** The six child inserts of one save, one collection per table. */
  datatype ChildRows = ChildRows(
    keyQuotes: seq<KeyQuoteRow>,
    timelineEvents: seq<TimelineEventRow>,
    inconsistencies: seq<InconsistencyRow>,
    evidenceItems: seq<EvidenceItemRow>,
    precedentCases: seq<PrecedentCaseRow>,
    criticalAlerts: seq<CriticalAlertRow>)

  /** Every child row points at the parent `id`. */
  predicate TaggedWith(c: ChildRows, id: string) {
    && (forall i :: 0 <= i < |c.keyQuotes| ==> c.keyQuotes[i].analysisId == id)
    && (forall i :: 0 <= i < |c.timelineEvents| ==> c.timelineEvents[i].analysisId == id)
    && (forall i :: 0 <= i < |c.inconsistencies| ==> c.inconsistencies[i].analysisId == id)
    && (forall i :: 0 <= i < |c.evidenceItems| ==> c.evidenceItems[i].analysisId == id)
    && (forall i :: 0 <= i < |c.precedentCases| ==> c.precedentCases[i].analysisId == id)
    && (forall i :: 0 <= i < |c.criticalAlerts| ==> c.criticalAlerts[i].analysisId == id)
  }

  /** The parent insert: the chosen case name plus the reply's scalar fields. */
  function ParentRowOf(caseName: string, a: AnalysisReply): ParentRow {
    ParentRow(caseName, a.personName, a.crimeConvicted, a.innocenceClaim, a.paroleBoardFocus, a.summary, a.riskScore)
  }

  function KeyQuoteRowOf(id: string, q: KeyQuote): KeyQuoteRow {
    KeyQuoteRow(id, q.quote, q.lineNumber, q.context)
  }

  function TimelineEventRowOf(id: string, e: TimelineEvent): TimelineEventRow {
    TimelineEventRow(id, e.date, e.event, e.confidence)
  }

  function InconsistencyRowOf(id: string, i: Inconsistency): InconsistencyRow {
    InconsistencyRow(id, i.statement1, i.source1, i.statement2, i.source2, i.analysis)
  }

  function EvidenceItemRowOf(id: string, e: EvidenceItem): EvidenceItemRow {
    EvidenceItemRow(id, e.evidence, e.evidenceType, e.reliability, e.notes)
  }

  function PrecedentCaseRowOf(id: string, p: PrecedentCase): PrecedentCaseRow {
    PrecedentCaseRow(id, p.caseName, p.summary, p.outcome)
  }

  function CriticalAlertRowOf(id: string, a: CriticalAlert): CriticalAlertRow {
    CriticalAlertRow(id, a.title, a.description, a.severity)
  }

  /** The six `.map` calls that build the child inserts. A reply lacking any
      collection makes one of them throw before any child insert runs. */
  function ChildRowsOf(id: string, a: AnalysisReply): (r: Option<ChildRows>)
    ensures r.Some? <==> HasAllCollections(a)
    ensures r.Some? ==> TaggedWith(r.value, id)
    ensures r.Some? ==>
      && |r.value.keyQuotes| == |a.keyQuotes.value|
      && |r.value.timelineEvents| == |a.timelineEvents.value|
      && |r.value.inconsistencies| == |a.inconsistencies.value|
      && |r.value.evidenceItems| == |a.evidenceMatrix.value|
      && |r.value.precedentCases| == |a.precedentCases.value|
      && |r.value.criticalAlerts| == |a.criticalAlerts.value|
  {
    if HasAllCollections(a) then
      Some(ChildRows(
        Seqs.Map(a.keyQuotes.value, q => KeyQuoteRowOf(id, q)),
        Seqs.Map(a.timelineEvents.value, e => TimelineEventRowOf(id, e)),
        Seqs.Map(a.inconsistencies.value, i => InconsistencyRowOf(id, i)),
        Seqs.Map(a.evidenceMatrix.value, e => EvidenceItemRowOf(id, e)),
        Seqs.Map(a.precedentCases.value, p => PrecedentCaseRowOf(id, p)),
        Seqs.Map(a.criticalAlerts.value, c => CriticalAlertRowOf(id, c))))
    else
      None
  }

  function KeyQuoteOf(r: KeyQuoteRow): KeyQuote {
    KeyQuote(r.quote, r.lineNumber, r.context)
  }

  function TimelineEventOf(r: TimelineEventRow): TimelineEvent {
    TimelineEvent(r.date, r.event, r.confidence)
  }

  function InconsistencyOf(r: InconsistencyRow): Inconsistency {
    Inconsistency(r.statement1, r.source1, r.statement2, r.source2, r.analysis)
  }

  function EvidenceItemOf(r: EvidenceItemRow): EvidenceItem {
    EvidenceItem(r.evidence, r.evidenceType, r.reliability, r.notes)
  }

  function PrecedentCaseOf(r: PrecedentCaseRow): PrecedentCase {
    PrecedentCase(r.caseName, r.summary, r.outcome)
  }

  function CriticalAlertOf(r: CriticalAlertRow): CriticalAlert {
    CriticalAlert(r.title, r.description, r.severity)
  }

  /** The detail page's transform of a stored analysis (parent plus included
      children, read in insertion order) back into the analysis shape. */
  function ReadBack(p: ParentRow, c: ChildRows): AnalysisReply {
    AnalysisReply(
      p.summary, p.personName, p.crimeConvicted, p.innocenceClaim, p.paroleBoardFocus,
      Some(Seqs.Map(c.keyQuotes, KeyQuoteOf)),
      Some(Seqs.Map(c.criticalAlerts, CriticalAlertOf)),
      Some(Seqs.Map(c.timelineEvents, TimelineEventOf)),
      Some(Seqs.Map(c.inconsistencies, InconsistencyOf)),
      Some(Seqs.Map(c.evidenceItems, EvidenceItemOf)),
      p.riskScore,
      Some(Seqs.Map(c.precedentCases, PrecedentCaseOf)))
  }

  /** Saving and reading back reproduces the reply, every collection in its
      original order, whatever id the store assigned. */
  lemma SaveReadBackRoundTrip(caseName: string, id: string, a: AnalysisReply)
    requires HasAllCollections(a)
    ensures ChildRowsOf(id, a).Some?
    ensures ReadBack(ParentRowOf(caseName, a), ChildRowsOf(id, a).value) == a
  {
    Seqs.MapThenInverse(a.keyQuotes.value, q => KeyQuoteRowOf(id, q), KeyQuoteOf);
    Seqs.MapThenInverse(a.timelineEvents.value, e => TimelineEventRowOf(id, e), TimelineEventOf);
    Seqs.MapThenInverse(a.inconsistencies.value, i => InconsistencyRowOf(id, i), InconsistencyOf);
    Seqs.MapThenInverse(a.evidenceMatrix.value, e => EvidenceItemRowOf(id, e), EvidenceItemOf);
    Seqs.MapThenInverse(a.precedentCases.value, p => PrecedentCaseRowOf(id, p), PrecedentCaseOf);
    Seqs.MapThenInverse(a.criticalAlerts.value, c => CriticalAlertRowOf(id, c), CriticalAlertOf);
  }
}
