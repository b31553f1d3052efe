# Hello-label admission webhook: a Dafny model

The webhook is a Flask service that the Kubernetes API server calls with an
AdmissionReview request. Its single POST route (`validate_pod` in `main.py`)
reads `request.uid` and `request.object.metadata.labels`. It allows the pod
exactly when the label `hello` is `world`, and it answers with an
AdmissionReview envelope. If the uid cannot be read, it answers HTTP 400 with
`{"error": ...}`.

The model works on the decoded request body:

- `JsonValues` (json.dfy): decoded JSON as Python holds it (`dict`, `list`,
  `str`, `int`, `float`, `bool`, `None`). It also has `Reach`, a strict
  lookup along a path of keys. The properties are stated with `Reach`, so they
  do not depend on how the handler reads the document.
- `PyAccess` (pyaccess.dfy): Python's `x[key]` (TypeError or KeyError) and
  `x.get(key, default)` (AttributeError when `x` is not a dict). `GetPath` is
  the chain `.get(k1, {}).get(k2, {})...` of lines 39-40.
- `Admission` (admission.dfy): `Validate`, the handler as a specification
  function, and `ValidatePod`, the handler step by step. In `ValidatePod` the
  locals `allowed` and `message` start at the denial and are overwritten on a
  match, and `status` is inserted into the response dictionary afterwards.
  The method is proved equal to `Validate`. Each call yields an `Outcome`:
  - a reply, which is one of three things:
    - `ClientError`: HTTP 400, `{"error": ...}`;
    - `Reviewed`: HTTP 200, the AdmissionReview;
    - `Crashed`: an AttributeError escapes the handler;
  - the log entries emitted on the way.
- `AdmissionProperties` (properties.dfy): the handler's promises as lemmas
  about `Validate`.

What the handler in main.py does not do:

- It has a single route, `/`; there is no `/validate` route.
- There is no `/healthz` endpoint.
- There is no auditor variant that always allows.
- There is no fail-open fallback. A fault after the uid was read (for
  example `metadata: null`) is not turned into an allowing AdmissionReview. It
  escapes `validate_pod`, and the web framework answers it.
- The validation log record holds `uid`, `allowed`, `message` and
  `pod_name`. It does not hold the operation, user or resource.
- The 400 path logs only the error text at error severity (main.py:35), not
  the offending payload.

## Model

| member | source | states |
|---|---|---|
| `PyAccess.Subscript` | main.py:26 | `j[key]` succeeds exactly when `j` is a dict that holds `key`, and yields the stored value. It raises a KeyError exactly when `j` is a dict. Otherwise it raises a TypeError that names `j`'s type. |
| `PyAccess.Get` | main.py:39-40 | `j.get(key, default)` raises an AttributeError, which names the type, exactly when `j` is not a dict. Otherwise it yields the stored value when the key is present, even `null`, and the default only when the key is absent. |
| `PyAccess.Describe` | main.py:25-36 | No contract of its own: `str(e)` of the exception that stops the uid lookup (the framework's decoding text, the TypeError wording per type, the quoted key of a KeyError). ClientErrorMessages states the resulting 400 texts. |
| `PyAccess.GetPath` | main.py:39-40 | No contract of its own: the chain `.get(k1, {}).get(k2, {})...`. GetPathSpec and GetPathOfEmpty state its behaviour against the strict lookup. |
| `PyAccess.GetPathOfEmpty` | main.py:39-40 | Below a missing level, every further `.get(key, {})` yields `{}`. |
| `PyAccess.GetPathSpec` | main.py:39-40 | The chain of `.get(key, {})` fails exactly when some level before the last is present but not a dict, and it reports that level's type. Otherwise it yields the strict lookup's value when every level is present, and `{}` when one is missing. |
| `Admission.Validate` | main.py:22-77 | No contract of its own: the whole handler as a function. ClientErrorExactly, ClientErrorMessages, UidEchoed, CrashExactly, AllowedExactly, ReviewShape and ValidationLogged state its behaviour; ValidatePod is proved equal to it. |
| `Admission.Decide` | main.py:38-77 | No contract of its own: everything after the uid is read. DecideInClosedForm states it in closed form against the strict lookup. |
| `Admission.Policy` | main.py:42-47 | No contract of its own: allow exactly when `hello` is the string "world", with the matching message. AllowedExactly and ValidationLogged state it on whole requests. |
| `Admission.Envelope` | main.py:62-75 | No contract of its own: the AdmissionReview for a uid and a verdict. ReviewShape, UidEchoed and EnvelopeMentions state its shape. |
| `Admission.Rejected` | main.py:34-36 | No contract of its own: the 400 answer and the error-severity log entry with the same text. ClientErrorExactly and ClientErrorMessages state it. |
| `Admission.ValidatePod` | main.py:22-77 | The step-by-step handler gives the same reply and log entries as the specification `Validate` on every body. |
| `AdmissionProperties.LabelsLookup` | main.py:38-40 | Reading `object`, `metadata` and `labels` under the request fails exactly when `object` or `metadata` is present but not a dict. Otherwise it yields the labels, or `{}` when a level is absent. |
| `AdmissionProperties.DecideInClosedForm` | main.py:38-77 | After the uid is read, the outcome has a closed form. If `object`, `metadata` or `labels` is present but not a dict, the handler crashes with that value's type, having logged only the request. Otherwise the policy sees `labels.hello` (`None` if absent), and the envelope and validation log follow from that verdict. |
| `AdmissionProperties.ClientErrorExactly` | main.py:24-36 | HTTP 400 happens exactly when the body is undecodable or holds no `request.uid`. The 400 body is only `{"error": text}`, never an AdmissionReview. The text starts with "Failed to parse request: ", and the same text is logged once at error severity. |
| `AdmissionProperties.ClientErrorMessages` | main.py:25-36 | The error text is the prefix plus `str()` of the exception in each case: a decoding failure, a body that is not a dict, a missing `request`, a `request` that is not a dict, a missing `uid`. |
| `AdmissionProperties.UidEchoed` | main.py:26-68 | Once the uid is read there is never a 400. The whole decoded request is logged first. A decision's `response.uid` equals `request.uid`, whatever JSON value it is, `null` included. |
| `AdmissionProperties.CrashExactly` | main.py:38-45 | With a uid, the handler raises exactly when `object`, `metadata` or `labels` is present but not a dict. The AttributeError names that value's type. There is no reply of the handler's own, and only the received request was logged. |
| `AdmissionProperties.LabelledIsWellFormed` | main.py:39-45 | A `hello: "world"` label can only be reached through dicts, so such a request never crashes. |
| `AdmissionProperties.AllowedExactly` | main.py:42-47 | With a uid, `allowed` is true exactly when `labels.hello` is the string "world". It is false exactly when nothing crashes and that label is missing or different. This covers an absent `object`, `metadata`, `labels` or `hello`. |
| `AdmissionProperties.EnvelopeMentions` | main.py:62-75 | The envelope never carries the allow message unless the echoed uid itself does. |
| `AdmissionProperties.ReviewShape` | main.py:62-77 | Every AdmissionReview goes out with HTTP 200. It has exactly the keys `apiVersion` = "admission.k8s.io/v1", `kind` = "AdmissionReview" and `response`. `response` holds `uid` and a boolean `allowed`. When allowed it holds nothing else. When denied it also holds `status` = `{code: 403, message: "Pod rejected: ..."}`. The allow message appears only if the uid carries it. |
| `AdmissionProperties.ValidationLogged` | main.py:49-60 | A decision logs two info entries: the received request, then the record. The record holds the echoed uid, the answer's `allowed`, the matching message, and `object.metadata.name`, or `None` when absent. |

## Left out

- Flask, routing and the decoding of `request.json` are left out. The body arrives already decoded, or as the text of the framework's decoding exception (`ParseFailure`). A body that decodes to JSON `null` is `Parsed(Null)` and takes the TypeError path.
- The Google Cloud Logging client and handler setup (main.py:4-17) are left out, and so is the emission of entries. Log entries are values in `Outcome.logs`. Each entry carries the uid value, not the f-string text of its message, because Python's `str()` of an arbitrary JSON value is not modelled.
- What the web framework does with an exception that escapes the handler (its server-error answer) is left out. It is tagged `Crashed`, and `Wire` gives no HTTP response for it.
- `jsonify`'s serialisation to text and the key order of dicts are left out. JSON objects are Dafny maps.
- JSON numbers are left unbounded: `int` is unbounded, and `float` is an exact real. Python's `json` also yields `nan`, `inf` and `-inf` (from `NaN`, `Infinity`, `-Infinity` or an overflowing literal such as `1e400`) and distinguishes `-0.0` from `0.0`; these float values have no representation in the model, so a uid holding one is outside what UidEchoed covers. Number values never affect the decision.
- The TypeError texts in `PyAccess.Describe` follow CPython 3.11 and later. Older versions word the `str` case differently.
- The `__main__` block (the `PORT` variable and server start, main.py:80-82) is left out.
- A `/healthz` endpoint, an auditor variant and a fail-open fallback with an HTTP 500 path do not exist in main.py, so none is modelled.
