/** The `/api/detect` route: the same detection contents as the analyze route,
    sent under this route's own response schema; its reply is returned as
    parsed, and any failure is a 500 response — there is no single-person
    fallback here. */
module DetectRoute {
  import opened Wrappers
  import opened Gateway
  import Json
  import Prompts
  import AnalyzeRoute

  const FailureMessage: string := "Failed to detect people in documents"

  datatype Response = Detected(body: Json.Json) | Failed(status: nat, message: string)

  datatype Outcome = Outcome(response: Response, effects: seq<Effect>)

  /** `POST /api/detect`. A blank reply reaches `JSON.parse("")`, which throws. */
  function Post(documents: string, pdfFiles: seq<UploadedFile>, svc: Services): (o: Outcome)
    ensures o.effects == [Generate(DetectPeopleStandalone, Prompts.DetectionParts(documents, pdfFiles))]
    ensures o.response.Failed? ==> o.response == Failed(500, FailureMessage)
    ensures var reply := svc.generate(DetectPeopleStandalone, Prompts.DetectionParts(documents, pdfFiles));
      o.response.Detected? <==>
        reply.Replied? && ReplyText(reply.text) != "" && svc.parseJson(ReplyText(reply.text)).Some?
    ensures o.response.Detected? ==>
      var reply := svc.generate(DetectPeopleStandalone, Prompts.DetectionParts(documents, pdfFiles));
      Some(o.response.body) == svc.parseJson(ReplyText(reply.text))
  {
    var parts := Prompts.DetectionParts(documents, pdfFiles);
    var call := [Generate(DetectPeopleStandalone, parts)];
    match svc.generate(DetectPeopleStandalone, parts)
    case Threw(_) => Outcome(Failed(500, FailureMessage), call)
    case Replied(text) =>
      if ReplyText(text) == "" then Outcome(Failed(500, FailureMessage), call)
      else match svc.parseJson(ReplyText(text))
        case None => Outcome(Failed(500, FailureMessage), call)
        case Some(v) => Outcome(Detected(v), call)
  }

  /** The two routes send the same contents to the detection service, each
      under its own response schema. When the service answers both requests
      alike, a thrown call or a blank reply is a 500 here where the analyze
      route falls back to a single person. */
  lemma DetectRoutesAgree(documents: string, pdfFiles: seq<UploadedFile>, audioFiles: seq<UploadedFile>, svc: Services)
    ensures var here, there := Post(documents, pdfFiles, svc).effects,
                               AnalyzeRoute.DetectMultiplePeople(documents, pdfFiles, audioFiles, svc).effects;
      && |here| == 1 && |there| == 1
      && here[0].Generate? && there[0].Generate?
      && here[0].parts == there[0].parts
      && here[0].kind == DetectPeopleStandalone && there[0].kind == DetectPeople
    ensures var parts := Prompts.DetectionParts(documents, pdfFiles);
      var reply := svc.generate(DetectPeople, parts);
      svc.generate(DetectPeopleStandalone, parts) == reply && (reply.Threw? || ReplyText(reply.text) == "") ==>
        && Post(documents, pdfFiles, svc).response == Failed(500, FailureMessage)
        && AnalyzeRoute.DetectMultiplePeople(documents, pdfFiles, audioFiles, svc).result == Success(SinglePerson)
  {
  }
}
