/**
 * What the handler promises, stated on the decoded document with the strict
 * lookup `Reach`, independently of how `Validate` reads it.
 */
module AdmissionProperties {
  import opened Wrappers
  import opened JsonValues
  import opened PyAccess
  import opened Admission

  const UidAt: seq<string> := ["request", "uid"]
  const ObjectAt: seq<string> := ["request", "object"]
  const MetadataAt: seq<string> := ["request", "object", "metadata"]
  const LabelsAt: seq<string> := ["request", "object", "metadata", "labels"]
  const HelloAt: seq<string> := ["request", "object", "metadata", "labels", "hello"]
  const NameAt: seq<string> := ["request", "object", "metadata", "name"]

  /** The value at `path`, or Python's `None` when some level is missing. */
  function ValueOr(doc: Json, path: seq<string>, default: Json): Json {
    if Reach(doc, path).Some? then Reach(doc, path).value else default
  }

  /** The request reaches the decision: it is a dict holding a uid. */
  ghost predicate Correlated(body: Body) {
    body.Parsed? && Reach(body.doc, UidAt).Some?
  }

  /** One of `object`, `metadata`, `labels` is present but is not a dict. */
  predicate Malformed(doc: Json) {
    PresentNonDict(doc, ObjectAt) || PresentNonDict(doc, MetadataAt) || PresentNonDict(doc, LabelsAt)
  }

  /** The value of the one level among `object`, `metadata`, `labels` that is present but not a dict. */
  function OffendingLevel(doc: Json): Json
    requires Malformed(doc)
  {
    if PresentNonDict(doc, ObjectAt) then Reach(doc, ObjectAt).value
    else if PresentNonDict(doc, MetadataAt) then Reach(doc, MetadataAt).value
    else Reach(doc, LabelsAt).value
  }

  /** The label the policy is about: `hello: world`, present as a string. */
  ghost predicate LabelledHelloWorld(doc: Json) {
    Reach(doc, HelloAt) == Some(Str("world"))
  }

  /** Levels below `request`, read from the document or from `request` itself. */
  lemma BelowRequest(doc: Json, req: Json, path: seq<string>)
    requires Reach(doc, ["request"]) == Some(req)
    ensures Reach(doc, ["request"] + path) == Reach(req, path)
  {
    ReachAppend(doc, ["request"], path);
  }

  /** The uid sits in a `request` dict. */
  lemma RequestOfUid(doc: Json)
    requires Reach(doc, UidAt).Some?
    ensures doc.Obj? && "request" in doc.fields && doc.fields["request"].Obj?
    ensures Reach(doc, ["request"]) == Some(doc.fields["request"])
    ensures Reach(doc.fields["request"], ["uid"]) == Reach(doc, UidAt)
  {
    BelowRequest(doc, doc.fields["request"], ["uid"]);
  }

  /** The defaulting lookup of the labels, against the strict one on the document. */
  lemma {:induction false} LabelsLookup(doc: Json, req: Json)
    requires Reach(doc, ["request"]) == Some(req) && req.Obj?
    ensures GetPath(req, LabelsPath).Err? <==> PresentNonDict(doc, ObjectAt) || PresentNonDict(doc, MetadataAt)
    ensures PresentNonDict(doc, ObjectAt) ==>
              GetPath(req, LabelsPath) == Err(NoGet(TypeName(Reach(doc, ObjectAt).value)))
    ensures PresentNonDict(doc, MetadataAt) ==>
              GetPath(req, LabelsPath) == Err(NoGet(TypeName(Reach(doc, MetadataAt).value)))
    ensures GetPath(req, LabelsPath).Ok? ==> GetPath(req, LabelsPath).value == ValueOr(doc, LabelsAt, EmptyObj)
    ensures GetPath(req, LabelsPath).Ok? ==>
              GetPath(req, MetadataPath) == Ok(ValueOr(doc, MetadataAt, EmptyObj))
  {
    GetPathSpec(req, LabelsPath);
    GetPathSpec(req, MetadataPath);
    assert LabelsPath[..0] == [] && MetadataPath[..0] == [];
    assert LabelsPath[..1] == MetadataPath[..1] == ["object"];
    assert LabelsPath[..2] == MetadataPath == ["object", "metadata"];
    assert ObjectAt == ["request"] + ["object"];
    assert MetadataAt == ["request"] + MetadataPath;
    assert LabelsAt == ["request"] + LabelsPath;
    BelowRequest(doc, req, ["object"]);
    BelowRequest(doc, req, MetadataPath);
    BelowRequest(doc, req, LabelsPath);
    if PresentNonDict(doc, ObjectAt) {
      assert BlockedAt(req, LabelsPath, 1);
    }
    if PresentNonDict(doc, MetadataAt) {
      assert BlockedAt(req, LabelsPath, 2);
    }
    forall k | BlockedAt(req, MetadataPath, k) ensures BlockedAt(req, LabelsPath, k) {
    }
  }

  /** A value read with `.get(key, default)` from a level found by the defaulting lookup. */
  lemma GetBelow(doc: Json, level: seq<string>, key: string, default: Json)
    requires !PresentNonDict(doc, level)
    ensures Get(ValueOr(doc, level, EmptyObj), key, default) == Ok(ValueOr(doc, level + [key], default))
  {
    ReachAppend(doc, level, [key]);
  }

  /**
   * Everything after the uid is read, in closed form: the first level among
   * `object`, `metadata`, `labels` that is present but not a dict raises an
   * AttributeError after the request was logged; otherwise the policy sees
   * the `hello` label (Python's `None` when absent) and the pod name is logged.
   */
  lemma DecideInClosedForm(doc: Json, req: Json, uid: Json)
    requires Reach(doc, ["request"]) == Some(req) && req.Obj?
    ensures Decide(doc, req, uid) ==
      if Malformed(doc) then
        Outcome(Crashed(NoGet(TypeName(OffendingLevel(doc)))), [Received(uid, doc)])
      else
        var v := Policy(ValueOr(doc, HelloAt, Null));
        Outcome(Reviewed(Envelope(uid, v)),
                [Received(uid, doc), Validated(ValidationRecord(uid, v.allowed, v.message, ValueOr(doc, NameAt, Null)))])
  {
    LabelsLookup(doc, req);
    if !PresentNonDict(doc, ObjectAt) && !PresentNonDict(doc, MetadataAt) {
      assert HelloAt == LabelsAt + ["hello"];
      assert NameAt == MetadataAt + ["name"];
      if !PresentNonDict(doc, LabelsAt) {
        GetBelow(doc, LabelsAt, "hello", Null);
      }
      GetBelow(doc, MetadataAt, "name", Null);
    }
  }

  /** Only the policy's verdict reaches the envelope: the allow message is never put there. */
  lemma EnvelopeMentions(uid: Json, hello: Json)
    ensures Mentions(Envelope(uid, Policy(hello)), AllowMessage) ==> Mentions(uid, AllowMessage)
  {
    var v := Policy(hello);
    var review := Envelope(uid, v);
    var response := review.fields["response"];
    var status := DenialStatus(RejectMessage);
    forall m | m in status.fields ensures !Mentions(status.fields[m], AllowMessage) {
    }
    if Mentions(review, AllowMessage) {
      var k :| k in review.fields && Mentions(review.fields[k], AllowMessage);
      assert k == "response";
      var j :| j in response.fields && Mentions(response.fields[j], AllowMessage);
    }
  }

  /**
   * The 400 path is taken exactly when the body could not be decoded or holds
   * no `request.uid`; it answers a plain `{"error": ...}` object, never an
   * AdmissionReview, and logs the same text once at error severity.
   */
  lemma ClientErrorExactly(body: Body)
    ensures Validate(body).reply.ClientError? <==> !Correlated(body)
    ensures var o := Validate(body);
            o.reply.ClientError? ==>
              && o.logs == [ParseFailed(o.reply.error)]
              && SeverityOf(o.logs[0]) == Error
              && ParseErrorPrefix <= o.reply.error
              && Wire(o.reply) == Some(HttpResponse(400, Obj(map["error" := Str(o.reply.error)])))
  {
    if body.Parsed? && Reach(body.doc, UidAt).Some? {
      RequestOfUid(body.doc);
      var req := body.doc.fields["request"];
      DecideInClosedForm(body.doc, req, Reach(body.doc, UidAt).value);
    }
  }

  /** The text after the prefix is `str()` of the exception that interrupted the uid lookup. */
  lemma ClientErrorMessages(body: Body)
    ensures body.ParseFailure? ==>
              Validate(body).reply == ClientError(ParseErrorPrefix + body.reason)
    ensures body.Parsed? && !body.doc.Obj? ==>
              Validate(body).reply == ClientError(ParseErrorPrefix + Describe(NotSubscriptable(TypeName(body.doc))))
    ensures body.Parsed? && body.doc.Obj? && Reach(body.doc, ["request"]).None? ==>
              Validate(body).reply == ClientError(ParseErrorPrefix + "'request'")
    ensures body.Parsed? && PresentNonDict(body.doc, ["request"]) ==>
              Validate(body).reply ==
                ClientError(ParseErrorPrefix + Describe(NotSubscriptable(TypeName(Reach(body.doc, ["request"]).value))))
    ensures body.Parsed? && Reach(body.doc, ["request"]).Some? && !PresentNonDict(body.doc, ["request"])
              && Reach(body.doc, UidAt).None? ==>
              Validate(body).reply == ClientError(ParseErrorPrefix + "'uid'")
  {
    if body.Parsed? && body.doc.Obj? && "request" in body.doc.fields {
      BelowRequest(body.doc, body.doc.fields["request"], ["uid"]);
    }
  }

  /**
   * Once the uid is read the request is never answered with 400: the whole
   * decoded request is logged first, and a decision echoes the uid verbatim,
   * whatever JSON value it is.
   */
  lemma UidEchoed(body: Body)
    requires Correlated(body)
    ensures var o := Validate(body);
            && !o.reply.ClientError?
            && |o.logs| >= 1
            && o.logs[0] == Received(Reach(body.doc, UidAt).value, body.doc)
            && (o.reply.Reviewed? ==> Reach(o.reply.review, ["response", "uid"]) == Reach(body.doc, UidAt))
  {
    RequestOfUid(body.doc);
    DecideInClosedForm(body.doc, body.doc.fields["request"], Reach(body.doc, UidAt).value);
  }

  /**
   * Absence is never an error, a wrong shape always is: after the uid is read,
   * the handler raises exactly when `object`, `metadata` or `labels` is present
   * but not a dict, names that value's type in the AttributeError, returns no
   * answer of its own and has logged only the received request.
   */
  lemma CrashExactly(body: Body)
    requires Correlated(body)
    ensures Validate(body).reply.Crashed? <==> Malformed(body.doc)
    ensures Malformed(body.doc) ==>
              && Validate(body).reply == Crashed(NoGet(TypeName(OffendingLevel(body.doc))))
              && Validate(body).logs == [Received(Reach(body.doc, UidAt).value, body.doc)]
              && Wire(Validate(body).reply) == None
  {
    RequestOfUid(body.doc);
    DecideInClosedForm(body.doc, body.doc.fields["request"], Reach(body.doc, UidAt).value);
  }

  /** A label `hello` that is the string "world" lies under dicts at every level. */
  lemma LabelledIsWellFormed(doc: Json)
    requires LabelledHelloWorld(doc)
    ensures !Malformed(doc)
  {
    assert HelloAt == ObjectAt + ["metadata", "labels", "hello"];
    assert HelloAt == MetadataAt + ["labels", "hello"];
    assert HelloAt == LabelsAt + ["hello"];
    ReachAppend(doc, ObjectAt, ["metadata", "labels", "hello"]);
    ReachAppend(doc, MetadataAt, ["labels", "hello"]);
    ReachAppend(doc, LabelsAt, ["hello"]);
  }

  /**
   * The policy: a correlated request is allowed exactly when its labels map
   * `hello` to the string "world", and denied in every other case that does
   * not crash, a missing `object`, `metadata`, `labels` or `hello` included.
   */
  lemma AllowedExactly(body: Body)
    requires Correlated(body)
    ensures var r := Validate(body).reply;
            (r.Reviewed? && Reach(r.review, ["response", "allowed"]) == Some(Bool(true)))
              <==> LabelledHelloWorld(body.doc)
    ensures var r := Validate(body).reply;
            (r.Reviewed? && Reach(r.review, ["response", "allowed"]) == Some(Bool(false)))
              <==> !Malformed(body.doc) && !LabelledHelloWorld(body.doc)
  {
    RequestOfUid(body.doc);
    DecideInClosedForm(body.doc, body.doc.fields["request"], Reach(body.doc, UidAt).value);
    if LabelledHelloWorld(body.doc) {
      LabelledIsWellFormed(body.doc);
    }
  }

  /**
   * Every AdmissionReview answer: status 200, exactly `apiVersion`, `kind`
   * and `response` with the fixed version and kind; `response` holds only
   * `uid` and a boolean `allowed`, plus on denial only a `status` with code
   * 403 and the rejection message; the allow message appears nowhere unless
   * the uid itself carries it.
   */
  lemma ReviewShape(body: Body)
    requires Validate(body).reply.Reviewed?
    ensures var review := Validate(body).reply.review;
            && Wire(Validate(body).reply) == Some(HttpResponse(200, review))
            && review.Obj? && review.fields.Keys == {"apiVersion", "kind", "response"}
            && review.fields["apiVersion"] == Str(ApiVersion)
            && review.fields["kind"] == Str(Kind)
            && review.fields["response"].Obj?
            && "uid" in review.fields["response"].fields
            && "allowed" in review.fields["response"].fields
            && review.fields["response"].fields["allowed"].Bool?
    ensures var response := Validate(body).reply.review.fields["response"];
            && (response.fields["allowed"] == Bool(true) ==> response.fields.Keys == {"uid", "allowed"})
            && (response.fields["allowed"] == Bool(false) ==>
                  && response.fields.Keys == {"uid", "allowed", "status"}
                  && response.fields["status"] == Obj(map["code" := Int(403), "message" := Str(RejectMessage)]))
    ensures var review := Validate(body).reply.review;
            Mentions(review, AllowMessage) ==> Mentions(review.fields["response"].fields["uid"], AllowMessage)
  {
    var doc, req, uid := body.doc, body.doc.fields["request"], body.doc.fields["request"].fields["uid"];
    assert Reach(doc, UidAt) == Some(uid);
    RequestOfUid(doc);
    DecideInClosedForm(doc, req, uid);
    EnvelopeMentions(uid, ValueOr(doc, HelloAt, Null));
  }

  /**
   * The validation log entry of a decision: info severity after the received
   * request, the echoed uid, the same `allowed` as the answer, the message of
   * that verdict, and `object.metadata.name` or `None` when it is absent.
   */
  lemma ValidationLogged(body: Body)
    requires Validate(body).reply.Reviewed?
    ensures var o := Validate(body);
            var allowed := Reach(o.reply.review, ["response", "allowed"]);
            && Correlated(body)
            && allowed.Some? && allowed.value.Bool?
            && o.logs == [Received(Reach(body.doc, UidAt).value, body.doc),
                          Validated(ValidationRecord(
                            Reach(body.doc, UidAt).value,
                            allowed.value.b,
                            if allowed.value.b then AllowMessage else RejectMessage,
                            ValueOr(body.doc, NameAt, Null)))]
            && forall i :: 0 <= i < |o.logs| ==> SeverityOf(o.logs[i]) == Info
  {
    var doc, req, uid := body.doc, body.doc.fields["request"], body.doc.fields["request"].fields["uid"];
    assert Reach(doc, UidAt) == Some(uid);
    RequestOfUid(doc);
    DecideInClosedForm(doc, req, uid);
  }
}
