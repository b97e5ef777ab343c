/** `saveAnalysisToDatabase`, shared by the analyze and analyze-single routes:
    one parent insert, then (only once the parent id is known) the six child
    inserts. The child inserts' own outcomes are never inspected, so a save
    that reaches them succeeds. */
module Persistence {
  import opened Wrappers
  import opened CaseTypes
  import opened Gateway
  import Rows

  /** Why a save threw: the parent insert reported an error or returned no row,
      or a collection of the reply was absent so that its `.map` threw after
      the parent row had been written. */
  datatype SaveError = ParentInsertFailed | ChildMappingFailed

  /** The saved parent row as the routes read it back: its id, case name and score. */
  datatype Saved = Saved(id: string, caseName: string, riskScore: Option<real>)

  datatype SaveStep = SaveStep(result: Result<Saved, SaveError>, effects: seq<Effect>)

  function Save(caseName: string, a: AnalysisReply, insertParent: Rows.ParentRow -> Option<string>): (s: SaveStep)
    // the parent row is always written first, holding the chosen name and the reply's scalars
    ensures |s.effects| >= 1 && s.effects[0] == InsertParent(Rows.ParentRowOf(caseName, a))
    ensures s.effects[0].row.caseName == caseName && s.effects[0].row.riskScore == a.riskScore
    // failure causes, both directions
    ensures s.result == Failure(ParentInsertFailed) <==> insertParent(Rows.ParentRowOf(caseName, a)).None?
    ensures s.result.Success? <==>
      insertParent(Rows.ParentRowOf(caseName, a)).Some? && HasAllCollections(a)
    // a failed save never reaches a child insert; a successful one inserts every collection, tagged
    ensures s.result.Failure? ==> |s.effects| == 1 && CountSaves(s.effects) == 0
    ensures s.result.Success? ==>
      && |s.effects| == 2
      && s.effects[1].InsertChildren?
      && s.result.value.id == insertParent(Rows.ParentRowOf(caseName, a)).value
      && Rows.TaggedWith(s.effects[1].rows, s.result.value.id)
      && s.result.value.caseName == caseName
      && s.result.value.riskScore == a.riskScore
      && CountSaves(s.effects) == 1
  {
    var row := Rows.ParentRowOf(caseName, a);
    match insertParent(row)
    case None => SaveStep(Failure(ParentInsertFailed), [InsertParent(row)])
    case Some(id) =>
      match Rows.ChildRowsOf(id, a)
      case None => SaveStep(Failure(ChildMappingFailed), [InsertParent(row)])
      case Some(children) =>
        SaveStep(Success(Saved(id, caseName, a.riskScore)), [InsertParent(row), InsertChildren(children)])
  }

  /** What a successful save writes reads back as the reply that was saved:
      every scalar field and every collection, element by element, in order. */
  lemma SavedRowsReadBack(caseName: string, a: AnalysisReply, insertParent: Rows.ParentRow -> Option<string>)
    requires Save(caseName, a, insertParent).result.Success?
    ensures var s := Save(caseName, a, insertParent);
      Rows.ReadBack(s.effects[0].row, s.effects[1].rows) == a
  {
    var id := insertParent(Rows.ParentRowOf(caseName, a)).value;
    Rows.SaveReadBackRoundTrip(caseName, id, a);
  }

  /** Once the parent insert succeeded, a reply lacking a collection leaves the
      parent row written with no children: the save fails but its row remains. */
  lemma MissingCollectionLeavesParent(caseName: string, a: AnalysisReply, insertParent: Rows.ParentRow -> Option<string>)
    requires insertParent(Rows.ParentRowOf(caseName, a)).Some?
    requires !HasAllCollections(a)
    ensures Save(caseName, a, insertParent).result == Failure(ChildMappingFailed)
    ensures Save(caseName, a, insertParent).effects == [InsertParent(Rows.ParentRowOf(caseName, a))]
  {
  }
}
