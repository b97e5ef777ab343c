/** The analysis records of the frontend: the item records and enumerations of
    `frontend/types/index.ts`, the key-quote record of the analysis response
    schema, and the parsed analysis reply. Numbers are `real`; a field named
    `type` in the source is called `evidenceType` here because `type` is a
    Dafny keyword. */
module CaseTypes {
  import opened Wrappers

  datatype TimelineEvent = TimelineEvent(date: string, event: string, confidence: real)

  datatype Inconsistency = Inconsistency(
    statement1: string,
    source1: string,
    statement2: string,
    source2: string,
    analysis: string)

  /** A closed set of four reliability grades. */
  datatype EvidenceReliability = High | Medium | Low | Unverified

  datatype EvidenceItem = EvidenceItem(
    evidence: string,
    evidenceType: string,
    reliability: EvidenceReliability,
    notes: string)

  datatype PrecedentCase = PrecedentCase(caseName: string, summary: string, outcome: string)

  /** A closed set of three severities. */
  datatype AlertSeverity = High | Medium | Low

  datatype CriticalAlert = CriticalAlert(title: string, description: string, severity: AlertSeverity)

  /** One quotation of the analysis schema. */
  datatype KeyQuote = KeyQuote(quote: string, lineNumber: string, context: string)

  /** The seven declared fields of a case analysis; every collection is ordered. */
  datatype CaseAnalysis = CaseAnalysis(
    summary: string,
    timelineEvents: seq<TimelineEvent>,
    inconsistencies: seq<Inconsistency>,
    evidenceMatrix: seq<EvidenceItem>,
    riskScore: real,
    precedentCases: seq<PrecedentCase>,
    criticalAlerts: seq<CriticalAlert>)

  /** What the routes obtain from `JSON.parse(reply) as CaseAnalysis`: the twelve
      fields of the analysis schema. The cast validates nothing, so each field
      may be absent. */
  datatype AnalysisReply = AnalysisReply(
    summary: Option<string>,
    personName: Option<string>,
    crimeConvicted: Option<string>,
    innocenceClaim: Option<string>,
    paroleBoardFocus: Option<string>,
    keyQuotes: Option<seq<KeyQuote>>,
    criticalAlerts: Option<seq<CriticalAlert>>,
    timelineEvents: Option<seq<TimelineEvent>>,
    inconsistencies: Option<seq<Inconsistency>>,
    evidenceMatrix: Option<seq<EvidenceItem>>,
    riskScore: Option<real>,
    precedentCases: Option<seq<PrecedentCase>>)

  /** The value of `JSON.parse("{}")`: every field absent. */
  const EmptyReply: AnalysisReply :=
    AnalysisReply(None, None, None, None, None, None, None, None, None, None, None, None)

  /** All six collections are present, so the child-row mapping can run. */
  predicate HasAllCollections(a: AnalysisReply) {
    && a.keyQuotes.Some?
    && a.criticalAlerts.Some?
    && a.timelineEvents.Some?
    && a.inconsistencies.Some?
    && a.evidenceMatrix.Some?
    && a.precedentCases.Some?
  }
}
