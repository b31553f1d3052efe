/**
 * The admission decision of the webhook's single POST route: read the
 * correlation id of an AdmissionReview request, allow the pod when it carries
 * the label `hello: world`, and answer with an AdmissionReview envelope.
 */
module Admission {
  import opened Wrappers
  import opened JsonValues
  import opened PyAccess

  const ApiVersion := "admission.k8s.io/v1"
  const Kind := "AdmissionReview"
  const RejectMessage := "Pod rejected: Must include the label 'hello: world'."
  const AllowMessage := "Pod allowed: Label 'hello: world' is present."
  const ParseErrorPrefix := "Failed to parse request: "
  const DeniedCode := 403

  /** From the `request` member down to the labels; each level is read with `.get(key, {})`. */
  const LabelsPath: seq<string> := ["object", "metadata", "labels"]
  /** From the `request` member down to the pod's metadata, read the same way. */
  const MetadataPath: seq<string> := ["object", "metadata"]

  /** The request body as the web framework hands it over: decoded, or the text of its decoding error. */
  datatype Body = Parsed(doc: Json) | ParseFailure(reason: string)

  /** What the policy decided, and the message that goes with it. */
  datatype Verdict = Verdict(allowed: bool, message: string)

  /** The searchable fields of the "Validation result" log entry. */
  datatype ValidationRecord = ValidationRecord(uid: Json, allowed: bool, message: string, podName: Json)

  datatype Severity = Info | Error

  /**
   * The log entries one request produces: the whole decoded request once the
   * uid is known, the parse failure, and the validation result. An entry keeps
   * the uid value rather than the formatted text of its message.
   */
  datatype LogEntry =
    | Received(uid: Json, payload: Json)
    | ParseFailed(message: string)
    | Validated(record: ValidationRecord)

  function SeverityOf(e: LogEntry): Severity {
    if e.ParseFailed? then Error else Info
  }

  /**
   * How the handler ends: a plain `{"error": ...}` answer, an AdmissionReview
   * answer, or an AttributeError that escapes the handler and is left to the
   * web framework.
   */
  datatype Reply =
    | ClientError(error: string)
    | Reviewed(review: Json)
    | Crashed(fault: AttributeError)

  /** The reply together with the log entries emitted on the way, in order. */
  datatype Outcome = Outcome(reply: Reply, logs: seq<LogEntry>)

  datatype HttpResponse = HttpResponse(code: int, body: Json)

  /** The HTTP status and JSON body the handler returns; none when it raised. */
  function Wire(r: Reply): Option<HttpResponse> {
    match r
    case ClientError(e) => Some(HttpResponse(400, Obj(map["error" := Str(e)])))
    case Reviewed(review) => Some(HttpResponse(200, review))
    case Crashed(_) => None
  }

  /** The policy: allow exactly when the `hello` label is the string "world". */
  function Policy(hello: Json): Verdict {
    if hello == Str("world") then Verdict(true, AllowMessage)
    else Verdict(false, RejectMessage)
  }

  /** The `status` member of a denial. */
  function DenialStatus(message: string): Json {
    Obj(map["code" := Int(DeniedCode), "message" := Str(message)])
  }

  /** The AdmissionReview response for a decided request. */
  function Envelope(uid: Json, v: Verdict): Json {
    var response := map["uid" := uid, "allowed" := Bool(v.allowed)];
    Obj(map[
      "apiVersion" := Str(ApiVersion),
      "kind" := Str(Kind),
      "response" := Obj(if v.allowed then response else response["status" := DenialStatus(v.message)])])
  }

  /** The 400 answer and its error-severity log entry, which carry the same text. */
  function Rejected(e: SubscriptError): Outcome {
    var message := ParseErrorPrefix + Describe(e);
    Outcome(ClientError(message), [ParseFailed(message)])
  }

  /** The handler as a whole: the `try` that reads the uid, then the decision. */
  function Validate(body: Body): Outcome {
    match body
    case ParseFailure(reason) => Rejected(Undecodable(reason))
    case Parsed(doc) =>
      match Subscript(doc, "request")
      case Err(e) => Rejected(e)
      case Ok(req) =>
        match Subscript(req, "uid")
        case Err(e) => Rejected(e)
        case Ok(uid) => Decide(doc, req, uid)
  }

  /** Everything after the `try`: label lookup, policy, validation log, envelope. */
  function Decide(doc: Json, req: Json, uid: Json): Outcome {
    var logs := [Received(uid, doc)];
    match GetPath(req, LabelsPath)
    case Err(f) => Outcome(Crashed(f), logs)
    case Ok(labels) =>
      match Get(labels, "hello", Null)
      case Err(f) => Outcome(Crashed(f), logs)
      case Ok(hello) =>
        match GetPath(req, MetadataPath)
        case Err(f) => Outcome(Crashed(f), logs)
        case Ok(metadata) =>
          match Get(metadata, "name", Null)
          case Err(f) => Outcome(Crashed(f), logs)
          case Ok(name) =>
            var v := Policy(hello);
            Outcome(Reviewed(Envelope(uid, v)),
                    logs + [Validated(ValidationRecord(uid, v.allowed, v.message, name))])
  }

  /**
   * The handler step by step: the locals `allowed` and `message` start at the
   * denial and are overwritten on a match, and `status` is inserted into the
   * response dictionary after it was built.
   */
  method ValidatePod(body: Body) returns (o: Outcome)
    ensures o == Validate(body)
  {
    if body.ParseFailure? {
      return Rejected(Undecodable(body.reason));
    }
    var admissionReviewReq := body.doc;
    var request := Subscript(admissionReviewReq, "request");
    if request.Err? {
      return Rejected(request.error);
    }
    var uidLookup := Subscript(request.value, "uid");
    if uidLookup.Err? {
      return Rejected(uidLookup.error);
    }
    var uid := uidLookup.value;
    var logs := [Received(uid, admissionReviewReq)];

    var req := request.value;
    assert LabelsPath[1..] == ["metadata", "labels"] && ["metadata", "labels"][1..] == ["labels"];
    assert MetadataPath[1..] == ["metadata"];
    // `req` held the uid, so it is a dict and this `.get` cannot raise.
    var pod := Get(req, "object", EmptyObj).value;
    var metadata := Get(pod, "metadata", EmptyObj);
    if metadata.Err? {
      return Outcome(Crashed(metadata.error), logs);
    }
    var podLabels := Get(metadata.value, "labels", EmptyObj);
    if podLabels.Err? {
      return Outcome(Crashed(podLabels.error), logs);
    }

    var allowed := false;
    var message := RejectMessage;
    var hello := Get(podLabels.value, "hello", Null);
    if hello.Err? {
      return Outcome(Crashed(hello.error), logs);
    }
    if hello.value == Str("world") {
      allowed := true;
      message := AllowMessage;
    }

    assert GetPath(req, MetadataPath) == metadata;
    assert GetPath(req, LabelsPath) == podLabels;
    var podName := Get(Get(pod, "metadata", EmptyObj).value, "name", Null);
    logs := logs + [Validated(ValidationRecord(uid, allowed, message, podName.value))];

    var admissionReviewResp := map[
      "apiVersion" := Str(ApiVersion),
      "kind" := Str(Kind),
      "response" := Obj(map["uid" := uid, "allowed" := Bool(allowed)])];
    if !allowed {
      var response := admissionReviewResp["response"].fields;
      admissionReviewResp := admissionReviewResp["response" :=
        Obj(response["status" := Obj(map["code" := Int(DeniedCode), "message" := Str(message)])])];
    }
    assert Obj(admissionReviewResp) == Envelope(uid, Policy(hello.value));
    o := Outcome(Reviewed(Obj(admissionReviewResp)), logs);
  }
}
