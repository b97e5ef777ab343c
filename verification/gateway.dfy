/** The boundary between the frontend routes and the outside world. The
    generative-AI service, the interpretation of its JSON replies and the
    database's parent insert are function-valued parameters (`Services`);
    each route records the calls it makes as a log of `Effect`s. */
module Gateway {
  import opened Wrappers
  import opened CaseTypes
  import Json
  import Rows
  import Strings
  import Seqs

  /** An uploaded form file. `text` is what `file.text()` decodes from `bytes`. */
  datatype UploadedFile = UploadedFile(name: string, mimeType: string, size: nat, bytes: seq<bv8>, text: string)

  /** One element of a request's `contents`: a text part or an inline-data part. */
  datatype Part = Text(text: string) | InlineData(mimeType: string, data: seq<bv8>)

  /** Which of the service requests is being made (its schema and configuration).
      The two detection requests send the same contents under response schemas
      whose `people` description differs, so the service may answer them
      differently. */
  datatype CallKind =
    | DetectPeople            // the analyze route's detection schema
    | DetectPeopleStandalone  // the detect route's detection schema
    | AnalyzeCase
    | TranscribeAudio
    | TranscribeSpeakers

  /** The outcome of one `generateContent` call: it threw, or it answered with a
      possibly absent `text`. */
  datatype OracleReply = Threw(message: string) | Replied(text: Option<string>)

  /** A detected person and the indices of the files that belong to them. */
  datatype PersonGroup = PersonGroup(name: string, fileIndices: seq<int>)

  datatype Detection = Detection(multiplePeople: bool, people: seq<PersonGroup>)

  /** The safe default detection: a single person. */
  const SinglePerson: Detection := Detection(false, [])

  /** An observable action of a route, in the order performed. */
  datatype Effect =
    | Generate(kind: CallKind, parts: seq<Part>)
    | InsertParent(row: Rows.ParentRow)
    | InsertChildren(rows: Rows.ChildRows)

  /** The external collaborators. `parseX` is `JSON.parse` followed by reading
      the value as the expected shape, `None` when parsing throws;
      `insertParent` answers the new row's id, `None` when the insert reports an
      error or returns no row. */
  datatype Services = Services(
    generate: (CallKind, seq<Part>) -> OracleReply,
    parseDetection: string -> Option<Detection>,
    parseAnalysis: string -> Option<AnalysisReply>,
    parseJson: string -> Option<Json.Json>,
    insertParent: Rows.ParentRow -> Option<string>)

  /** A computation's result together with the effects it performed. */
  datatype Step<T> = Step(result: Result<T, string>, effects: seq<Effect>)

  /** `response.text?.trim() || ""`. */
  function ReplyText(text: Option<string>): string {
    match text
    case Some(t) => Strings.Trim(t)
    case None => ""
  }

  predicate IsGenerate(e: Effect, kind: CallKind) {
    e.Generate? && e.kind == kind
  }

  /** Number of service calls of one kind in a log. */
  function CountCalls(effects: seq<Effect>, kind: CallKind): (n: nat)
    ensures n <= |effects|
    ensures n == 0 <==> forall i :: 0 <= i < |effects| ==> !IsGenerate(effects[i], kind)
  {
    if |effects| == 0 then 0
    else (if IsGenerate(effects[0], kind) then 1 else 0) + CountCalls(effects[1..], kind)
  }

  lemma {:induction false} CountCallsAppend(a: seq<Effect>, b: seq<Effect>, kind: CallKind)
    ensures CountCalls(a + b, kind) == CountCalls(a, kind) + CountCalls(b, kind)
  {
    if |a| == 0 {
      assert a + b == b;
    } else {
      assert (a + b)[1..] == a[1..] + b;
      CountCallsAppend(a[1..], b, kind);
    }
  }

  /** Number of completed saves (child inserts) in a log. */
  function CountSaves(effects: seq<Effect>): (n: nat)
    ensures n <= |effects|
  {
    if |effects| == 0 then 0
    else (if effects[0].InsertChildren? then 1 else 0) + CountSaves(effects[1..])
  }

  lemma {:induction false} CountSavesAppend(a: seq<Effect>, b: seq<Effect>)
    ensures CountSaves(a + b) == CountSaves(a) + CountSaves(b)
  {
    if |a| == 0 {
      assert a + b == b;
    } else {
      assert (a + b)[1..] == a[1..] + b;
      CountSavesAppend(a[1..], b);
    }
  }

  /** The position of the first failed step, or the number of steps when
      none failed. */
  function FirstFailed<T>(steps: seq<Step<T>>): (k: nat)
    ensures k <= |steps|
    ensures forall i :: 0 <= i < k ==> steps[i].result.Success?
    ensures k < |steps| ==> steps[k].result.Failure?
  {
    if |steps| == 0 || steps[0].result.Failure? then 0
    else
      var k := FirstFailed(steps[1..]);
      assert forall i :: 1 <= i < k + 1 ==> steps[i] == steps[1..][i - 1];
      1 + k
  }

  /** How many steps a loop that stops at the first failure performs: all of
      them, or up to and including the first failed one. */
  function Reached<T>(steps: seq<Step<T>>): (n: nat)
    ensures n <= |steps|
    ensures n == |steps| <==> FirstFailed(steps) >= |steps| - 1
  {
    var k := FirstFailed(steps);
    if k < |steps| then k + 1 else k
  }

  /** The effects of the steps, one after another. */
  function Sequenced<T>(steps: seq<Step<T>>): seq<Effect> {
    if |steps| == 0 then [] else steps[0].effects + Sequenced(steps[1..])
  }

  /** After a first step that succeeds, the loop reaches one more step than
      it does over the others, and performs the first step's effects before
      theirs. */
  lemma ReachedCons<T>(steps: seq<Step<T>>)
    requires |steps| > 0 && steps[0].result.Success?
    ensures FirstFailed(steps) == 1 + FirstFailed(steps[1..])
    ensures Reached(steps) == 1 + Reached(steps[1..])
    ensures Sequenced(steps[..Reached(steps)]) == steps[0].effects + Sequenced(steps[1..][..Reached(steps[1..])])
  {
    var k := FirstFailed(steps[1..]);
    assert FirstFailed(steps) == 1 + k;
    var n := Reached(steps);
    assert n == 1 + Reached(steps[1..]);
    var prefix := steps[..n];
    assert prefix[0] == steps[0];
    assert prefix[1..] == steps[1..][..n - 1];
    assert Sequenced(prefix) == prefix[0].effects + Sequenced(prefix[1..]);
  }

  /** A loop over the steps that stops at the first failure: the values of
      every step when all succeed, otherwise the first failure's error; the
      effects are those of the steps performed, in order, and nothing after
      the failed one. */
  function RunUntilFailure<T>(steps: seq<Step<T>>): (r: Step<seq<T>>)
    ensures r.result.Success? <==> FirstFailed(steps) == |steps|
    ensures r.effects == Sequenced(steps[..Reached(steps)])
    ensures r.result.Success? ==>
      |r.result.value| == |steps| && forall i :: 0 <= i < |steps| ==> r.result.value[i] == steps[i].result.value
    ensures r.result.Failure? ==> r.result.error == steps[FirstFailed(steps)].result.error
  {
    if |steps| == 0 then Step(Success([]), [])
    else if steps[0].result.Failure? then
      assert steps[..1][1..] == [];
      Step(Failure(steps[0].result.error), steps[0].effects)
    else
      var rest := RunUntilFailure(steps[1..]);
      ReachedCons(steps);
      match rest.result
      case Failure(e) => Step(Failure(e), steps[0].effects + rest.effects)
      case Success(vs) =>
        assert forall i :: 1 <= i < |steps| ==> steps[1..][i - 1] == steps[i];
        Step(Success([steps[0].result.value] + vs), steps[0].effects + rest.effects)
  }

  /** A step that saves once when it succeeds and never when it fails. */
  predicate SavesOnSuccess<T>(step: Step<T>) {
    CountSaves(step.effects) == (if step.result.Success? then 1 else 0)
  }

  /** When each step saves once on success and never on failure, the steps a
      stop-at-first-failure loop performs save once per step before the
      first failure. */
  lemma {:induction false} SavesUntilFailure<T>(steps: seq<Step<T>>)
    requires forall i :: 0 <= i < |steps| ==> SavesOnSuccess(steps[i])
    ensures CountSaves(Sequenced(steps[..Reached(steps)])) == FirstFailed(steps)
  {
    if |steps| > 0 {
      if steps[0].result.Failure? {
        assert steps[..1][1..] == [];
        CountSavesAppend(steps[0].effects, []);
        assert steps[0].effects + [] == steps[0].effects;
      } else {
        ReachedCons(steps);
        assert forall i :: 0 <= i < |steps| - 1 ==> steps[1..][i] == steps[i + 1];
        SavesUntilFailure(steps[1..]);
        CountSavesAppend(steps[0].effects, Sequenced(steps[1..][..Reached(steps[1..])]));
      }
    }
  }

  /** When every failing step's error passes a test, so does the error of a
      loop over them that stops at the first failure. */
  lemma ErrorsUntilFailure<T>(steps: seq<Step<T>>, ok: string -> bool)
    requires forall i :: 0 <= i < |steps| && steps[i].result.Failure? ==> ok(steps[i].result.error)
    ensures RunUntilFailure(steps).result.Failure? ==> ok(RunUntilFailure(steps).result.error)
  {
  }

  /** Steps that never make a call of some kind, performed one after another,
      make none. */
  lemma {:induction false} NoCallsSequenced<T>(steps: seq<Step<T>>, kind: CallKind)
    requires forall i :: 0 <= i < |steps| ==> CountCalls(steps[i].effects, kind) == 0
    ensures CountCalls(Sequenced(steps), kind) == 0
  {
    if |steps| > 0 {
      assert forall i :: 0 <= i < |steps| - 1 ==> steps[1..][i] == steps[i + 1];
      NoCallsSequenced(steps[1..], kind);
      CountCallsAppend(steps[0].effects, Sequenced(steps[1..]), kind);
    }
  }

  /** Steps that never make a call of some kind, looped over until the first
      failure, make none. */
  lemma NoCallsUntilFailure<T>(steps: seq<Step<T>>, kind: CallKind)
    requires forall i :: 0 <= i < |steps| ==> CountCalls(steps[i].effects, kind) == 0
    ensures CountCalls(RunUntilFailure(steps).effects, kind) == 0
  {
    var reached := steps[..Reached(steps)];
    assert forall i :: 0 <= i < |reached| ==> reached[i] == steps[i];
    NoCallsSequenced(reached, kind);
  }

  predicate IsCall(e: Effect) {
    e.Generate?
  }

  /** A step that makes exactly one call, as its first effect. */
  predicate CallsFirstOnly<T>(step: Step<T>) {
    |step.effects| >= 1 && IsCall(step.effects[0]) &&
    forall j :: 1 <= j < |step.effects| ==> !IsCall(step.effects[j])
  }

  /** The calls of a step that calls once, first, are that first call. */
  lemma CallsOfStep<T>(step: Step<T>)
    requires CallsFirstOnly(step)
    ensures Seqs.Filter(step.effects, IsCall) == [step.effects[0]]
  {
    var e := step.effects;
    assert e == [e[0]] + e[1..];
    Seqs.FilterAppend([e[0]], e[1..], IsCall);
    forall x | x in e[1..]
      ensures !IsCall(x)
    {
      var j :| 0 <= j < |e[1..]| && e[1..][j] == x;
      assert e[1..][j] == e[j + 1];
    }
    Seqs.FilterKeepsNone(e[1..], IsCall);
  }

  /** The calls of steps that each call once, first, are those first calls in
      step order. */
  lemma {:induction false} CallsSequenced<T>(steps: seq<Step<T>>)
    requires forall i {:trigger steps[i]} :: 0 <= i < |steps| ==> CallsFirstOnly(steps[i])
    ensures |Seqs.Filter(Sequenced(steps), IsCall)| == |steps|
    ensures forall i :: 0 <= i < |steps| ==> |steps[i].effects| >= 1 && Seqs.Filter(Sequenced(steps), IsCall)[i] == steps[i].effects[0]
  {
    if |steps| > 0 {
      var tail := steps[1..];
      assert forall i :: 0 <= i < |tail| ==> tail[i] == steps[i + 1];
      CallsSequenced(tail);
      Seqs.FilterAppend(steps[0].effects, Sequenced(tail), IsCall);
      CallsOfStep(steps[0]);
      var calls := Seqs.Filter(Sequenced(steps), IsCall);
      assert calls == [steps[0].effects[0]] + Seqs.Filter(Sequenced(tail), IsCall);
      forall i | 0 <= i < |steps|
        ensures |steps[i].effects| >= 1 && calls[i] == steps[i].effects[0]
      {
        if i > 0 {
          assert calls[i] == Seqs.Filter(Sequenced(tail), IsCall)[i - 1];
          assert tail[i - 1] == steps[i];
        }
      }
    }
  }
}
