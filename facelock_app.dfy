/** facelock/facelock.py: the FaceLock class. It enrols a reference face into
    its `model` field, verifies images against it, decides when the stored
    face id is too old, and runs the webcam loop whose debounce rule the
    Presence module specifies. The camera, the local detector and the lock
    command are replaced by per-tick observations and event counters. */
module FaceLockApp {
  import opened Common
  import opened Timing
  import opened FaceApi
  import opened Presence

  /** A detected face id is valid for 24 hours. */
  const FaceIdLifetime: real := 86400.0

  /** refresh_model's test: more than a day since the model's detect. */
  predicate IsStale(now: real, detectedAt: real)
  {
    now - detectedAt > FaceIdLifetime
  }

  /** What refresh_model decides: no model could be loaded (it returns None),
      the loaded model is still fresh and returned as it is, or a new detect
      is due. */
  datatype Freshness = NoModel | Current(model: Dict) | Redetect(model: Dict)

  /** refresh_model, with the pickle load as `loaded` (None when it raised
      OSError) and time.time() as `now`. */
  function RefreshModel(loaded: Option<Dict>, now: real): (r: Result<Freshness>)
    ensures r == Ok(NoModel) <==> loaded.None?
    ensures loaded.Some? && "time" !in loaded.value ==> r == Err(KeyError("time"))
    ensures loaded.Some? && "time" in loaded.value && AsNumber(loaded.value["time"]).Some? ==> r.Ok?
    ensures loaded.Some? && "time" in loaded.value && AsNumber(loaded.value["time"]).None? ==> r == Err(TypeError)
    ensures r.Ok? && !r.value.NoModel? ==>
              && r.value.model == loaded.value
              && "time" in loaded.value && AsNumber(loaded.value["time"]).Some?
              && (r.value.Redetect? <==> now - AsNumber(loaded.value["time"]).value > 24.0 * 3600.0)
  {
    match loaded
    case None => Ok(NoModel)
    case Some(model) =>
      if "time" !in model then Err(KeyError("time"))
      else
        match AsNumber(model["time"])
        case Some(t) => if IsStale(now, t) then Ok(Redetect(model)) else Ok(Current(model))
        case None => Err(TypeError)
  }

  /** The class's own face_verify. It follows the same requests as
      FaceApi.FaceVerify, but has no answer for an image without a face
      (`[0]` on an empty list raises IndexError), and its handler for failed
      requests raises IndexError itself (`'{1}'.format` with one argument). */
  function VerifyAsClass(model: Dict, image: ImageInput, env: Environment, service: FaceService): (r: Exchange<Dict>)
    ensures var api := FaceApi.FaceVerify(model, image, env, service);
            && r.sent == api.sent
            && (api.sent == [] ==> r.result == api.result)
            && (api.sent != [] ==>
                  r.result == match api.result
                              case Ok(v) => if |api.sent| == 1 then Err(IndexError) else Ok(v)
                              case Err(ConnectionError) => Err(IndexError)
                              case Err(HTTPError(_)) => Err(IndexError)
                              case Err(e) => Err(e))
  {
    match ReadImage(image, env)
    case Err(e) => Exchange(Err(e), [])
    case Ok(data) =>
      var sent := [Detect(OctetStream(data))];
      match DetectImage(service, data)
      case Unreachable => Exchange(Err(IndexError), sent)
      case Reply(status, body) =>
        if IsHttpError(status) then Exchange(Err(IndexError), sent)
        else
          match body
          case ErrorObject(_) => Exchange(Err(KeyError("0")), sent)
          case FaceList(faces) =>
            if faces == [] then Exchange(Err(IndexError), sent)
            else
              var face := faces[0];
              if "faceId" !in face then Exchange(Err(KeyError("faceId")), sent)
              else if "faceRectangle" !in face then Exchange(Err(KeyError("faceRectangle")), sent)
              else if "faceId" !in model then Exchange(Err(KeyError("faceId")), sent)
              else
                var sent' := sent + [Verify(face["faceId"], model["faceId"])];
                match service.verify(face["faceId"], model["faceId"])
                case Unreachable => Exchange(Err(IndexError), sent')
                case Reply(status', body') =>
                  if IsHttpError(status') then Exchange(Err(IndexError), sent')
                  else if "confidence" !in body' then Exchange(Err(KeyError("confidence")), sent')
                  else
                    Exchange(Ok(map["confidence" := body'["confidence"],
                                    "faceRectangle" := face["faceRectangle"],
                                    "faceId" := face["faceId"]]), sent')
  }

  /** What save_reference_face leaves behind: the new model and the status
      code it returns. */
  datatype Enrolment = Enrolment(model: Dict, status: int)

  /** How the class's save_reference_face reads the detect reply: with no
      raise_for_status, any status whose body is a non-empty face list
      enrols the first face; a failed connection ends in the TypeError its
      handler raises (a '%' format with one placeholder and two values). */
  function EnrolReply(reply: Reply<DetectBody>, now: real, ref: string): (r: Result<Enrolment>)
    ensures reply.Unreachable? ==> r == Err(TypeError)
    ensures reply.Reply? && reply.body == FaceList([]) ==> r == Err(ValueError(NoFaceMessage))
    ensures r.Ok? <==> reply.Reply? && reply.body.FaceList? && reply.body.faces != []
    ensures r.Ok? ==> r.value == Enrolment(ShapeModel(reply.body.faces[0], now, ref), reply.status)
  {
    match reply
    case Unreachable => Err(TypeError)
    case Reply(status, body) =>
      match body
      case ErrorObject(_) => Err(KeyError("0"))
      case FaceList(faces) =>
        if faces == [] then Err(ValueError(NoFaceMessage))
        else Ok(Enrolment(ShapeModel(faces[0], now, ref), status))
  }

  /** The class's save_reference_face: the same detect request as
      FaceApi.GetReferenceFaceModel, its reply read by EnrolReply. */
  function SaveAsClass(ref: string, now: real, env: Environment, service: FaceService): (r: Exchange<Enrolment>)
    ensures |r.sent| <= 1
    ensures r.sent == [] <==> DetectPayload(ref, env).Err?
    ensures r.sent == [] ==> r.result == Err(DetectPayload(ref, env).error)
    ensures r.sent != [] ==>
              && r.sent[0] == Detect(DetectPayload(ref, env).value)
              && r.result == EnrolReply(service.detect(r.sent[0].payload), now, ref)
  {
    match DetectPayload(ref, env)
    case Err(e) => Exchange(Err(e), [])
    case Ok(p) => Exchange(EnrolReply(service.detect(p), now, ref), [Detect(p)])
  }

  /** The class's enrolment sends the same request as
      FaceApi.GetReferenceFaceModel, and whenever that request was not sent
      or its reply is neither a failed connection nor a 4xx/5xx status, the
      two agree: the same model, or the same error. */
  lemma SaveAgreesWithFaceApi(ref: string, now: real, env: Environment, service: FaceService)
    ensures var api := GetReferenceFaceModel(ref, now, env, service);
            var r := SaveAsClass(ref, now, env, service);
            && r.sent == api.sent
            && ((api.sent == [] || Accepted(service.detect(api.sent[0].payload))) ==>
                  match api.result
                  case Ok(m) => r.result == Ok(Enrolment(m, service.detect(api.sent[0].payload).status))
                  case Err(e) => r.result == Err(e))
  {
    match DetectPayload(ref, env) {
      case Err(e) =>
      case Ok(p) =>
        var reply := service.detect(p);
        assert GetReferenceFaceModel(ref, now, env, service).sent == [Detect(p)];
        assert SaveAsClass(ref, now, env, service).result == EnrolReply(reply, now, ref);
    }
  }

  /** One tick of the webcam loop: what it saw and how long its work took. */
  datatype Sample = Sample(seen: Observation, elapsed: real)

  /** What the loop did: whether each tick locked the screen, and how long
      each tick slept. */
  datatype RunLog = RunLog(locked: seq<bool>, pauses: seq<real>)

  function Seen(samples: seq<Sample>): (obs: seq<Observation>)
    ensures |obs| == |samples| && forall i :: 0 <= i < |samples| ==> obs[i] == samples[i].seen
  {
    seq(|samples|, i requires 0 <= i < |samples| => samples[i].seen)
  }

  /** What a tick of `run` feeds the debounce rule: no call and NoFace when the
      local detector found nothing; otherwise the confidence of face_verify's
      result, a boolean counting as 1 or 0. A failed verification, a missing
      key or a confidence that is neither a number nor a boolean ends `run`
      with that exception. */
  function Observe(localFaces: nat, verified: Result<Dict>): (r: Result<Observation>)
    ensures localFaces == 0 ==> r == Ok(NoFace)
    ensures 0 < localFaces && verified.Err? ==> r == Err(verified.error)
    ensures r.Ok? && r.value.Faces? ==>
              && 0 < localFaces && verified.Ok?
              && "faceRectangle" in verified.value
              && "confidence" in verified.value
              && AsNumber(verified.value["confidence"]) == Some(r.value.confidence)
    ensures (0 < localFaces && verified.Ok? && "faceRectangle" in verified.value &&
             "confidence" in verified.value && AsNumber(verified.value["confidence"]).Some?) ==>
              r == Ok(Faces(AsNumber(verified.value["confidence"]).value))
    ensures (0 < localFaces && verified.Ok? && "faceRectangle" in verified.value &&
             "confidence" in verified.value && AsNumber(verified.value["confidence"]).None?) ==>
              r == Err(TypeError)
  {
    if localFaces < 1 then Ok(NoFace)
    else
      match verified
      case Err(e) => Err(e)
      case Ok(response) =>
        if "faceRectangle" !in response then Err(KeyError("faceRectangle"))
        else if "confidence" !in response then Err(KeyError("confidence"))
        else
          match AsNumber(response["confidence"])
          case Some(c) => Ok(Faces(c))
          case None => Err(TypeError)
  }

  /** Every successful verification by the class yields a usable observation:
      its result always carries a rectangle and a confidence. */
  lemma VerifiedFaceIsObservable(localFaces: nat, model: Dict, image: ImageInput, env: Environment, service: FaceService)
    requires 0 < localFaces
    ensures var v := VerifyAsClass(model, image, env, service).result;
            v.Ok? && AsNumber(v.value["confidence"]).Some? ==>
              Observe(localFaces, v) == Ok(Faces(AsNumber(v.value["confidence"]).value))
  {
  }

  /** Booleans take part in the arithmetic as 1 and 0: a confidence of `True`
      is observed as 1.0, and a model stamped with time `True` gets a
      staleness decision rather than an error. */
  lemma BooleansCountAsNumbers(now: real)
    ensures Observe(1, Ok(map["faceRectangle" := JNull, "confidence" := JBool(true)])) == Ok(Faces(1.0))
    ensures RefreshModel(Some(map["time" := JBool(true)]), now).Ok?
    ensures RefreshModel(Some(map["time" := JBool(true)]), now).value.Redetect? <==> now - 1.0 > 86400.0
  {
  }

  /** The pause after each tick: what is left of the sampling interval. */
  function Pauses(sleepSeconds: real, samples: seq<Sample>): (p: seq<real>)
    ensures |p| == |samples|
    ensures forall k :: 0 <= k < |samples| ==> p[k] == SleepTime(sleepSeconds, samples[k].elapsed)
    ensures forall k :: 0 <= k < |samples| ==>
              && 0.0 <= p[k]
              && sleepSeconds <= samples[k].elapsed + p[k]
              && (p[k] == 0.0 || samples[k].elapsed + p[k] == sleepSeconds)
              && (0.0 <= samples[k].elapsed && 0.0 <= sleepSeconds ==> p[k] <= sleepSeconds)
  {
    seq(|samples|, k requires 0 <= k < |samples| => SleepTime(sleepSeconds, samples[k].elapsed))
  }

  lemma PausesStep(sleepSeconds: real, samples: seq<Sample>, i: nat)
    requires i < |samples|
    ensures Pauses(sleepSeconds, samples[..i + 1])
            == Pauses(sleepSeconds, samples[..i]) + [SleepTime(sleepSeconds, samples[i].elapsed)]
  {
  }

  class FaceLock {
    /** RECOGNITION_THRESHOLD from the configuration file. */
    const recognitionThreshold: real
    /** The enrolled face: a detected face with `time` and `image`. */
    var model: Dict
    /** The debounce state of the webcam loop. */
    var counter: int
    var trigger: int
    /** How often the screen was locked, and how often face_verify was called. */
    var locks: nat
    var verifyCalls: nat

    constructor (recognitionThreshold: real)
      ensures this.recognitionThreshold == recognitionThreshold
      ensures model == map[] && counter == 0 && trigger == 0
      ensures locks == 0 && verifyCalls == 0
    {
      this.recognitionThreshold := recognitionThreshold;
      model := map[];
      counter, trigger := 0, 0;
      locks, verifyCalls := 0, 0;
    }

    /** save_reference_face: on success the model becomes the first detected
        face with `time` and `image`, and the status code is returned; on any
        exception the model is left as it was. */
    method SaveReferenceFace(ref: string, now: real, env: Environment, service: FaceService)
      returns (r: Exchange<int>)
      modifies this`model
      ensures var e := SaveAsClass(ref, now, env, service);
              && r.sent == e.sent
              && match e.result
                 case Ok(v) => r.result == Ok(v.status) && model == v.model
                 case Err(x) => r.result == Err(x) && model == old(model)
    {
      var e := SaveAsClass(ref, now, env, service);
      match e.result
      case Ok(v) =>
        model := v.model;
        r := Exchange(Ok(v.status), e.sent);
      case Err(x) =>
        r := Exchange(Err(x), e.sent);
    }

    /** face_verify: reload the stored model into the field, then verify. */
    method FaceVerify(loaded: Dict, image: ImageInput, env: Environment, service: FaceService)
      returns (r: Exchange<Dict>)
      modifies this`model
      ensures model == loaded
      ensures r == VerifyAsClass(loaded, image, env, service)
    {
      model := loaded;
      r := VerifyAsClass(model, image, env, service);
    }

    /** One pass of the body of `run`: a tick without a face adds one to the
        counter without calling face_verify; a tick with a face calls it and
        adds one below the threshold or resets to 0 otherwise; a counter above
        the trigger locks the screen and goes back to 0; then the loop sleeps
        for what is left of the sampling interval. The call to face_verify
        reloads `model` from storage; `loaded` is what that load returns. */
    method Tick(seen: Observation, loaded: Dict, sleepSeconds: real, elapsed: real) returns (fired: bool, pause: real)
      modifies this`model, this`counter, this`locks, this`verifyCalls
      ensures seen.Faces? ==> model == loaded
      ensures seen.NoFace? ==> model == old(model)
      ensures Outcome(counter, fired) == Step(old(counter), trigger, recognitionThreshold, seen)
      ensures locks == old(locks) + (if fired then 1 else 0)
      ensures verifyCalls == old(verifyCalls) + (if seen.Faces? then 1 else 0)
      ensures pause == SleepTime(sleepSeconds, elapsed)
    {
      match seen {
        case NoFace =>
          counter := counter + 1;
        case Faces(confidence) =>
          // face_verify first reloads the stored model into the field
          model := loaded;
          verifyCalls := verifyCalls + 1;
          if confidence < recognitionThreshold {
            counter := counter + 1;
          } else {
            counter := 0;
          }
      }
      fired := false;
      if counter > trigger {
        counter := 0;
        locks := locks + 1;
        fired := true;
      }
      pause := if 0.0 < sleepSeconds - elapsed then sleepSeconds - elapsed else 0.0;
    }

    /** `run` over a finite stretch of its endless loop: the trigger is
        int(delay_seconds / sleep_seconds), the counter starts at 0, and each
        sample is one tick. `loaded` is the stored model that each call to
        face_verify reloads into the `model` field. */
    method Run(delaySeconds: real, sleepSeconds: real, loaded: Dict, samples: seq<Sample>) returns (r: Result<RunLog>)
      modifies this`model, this`counter, this`trigger, this`locks, this`verifyCalls
      ensures TriggerThreshold(delaySeconds, sleepSeconds).Err? ==>
                r == Err(ZeroDivisionError) && unchanged(this)
      ensures TriggerThreshold(delaySeconds, sleepSeconds).Ok? ==>
                var obs := Seen(samples);
                && trigger == TriggerThreshold(delaySeconds, sleepSeconds).value
                && counter == CounterAfter(trigger, recognitionThreshold, obs)
                && locks == old(locks) + LockCount(trigger, recognitionThreshold, obs)
                && verifyCalls == old(verifyCalls) + VerifyCount(obs)
                && (VerifyCount(obs) > 0 ==> model == loaded)
                && (VerifyCount(obs) == 0 ==> model == old(model))
                && r.Ok? && r.value.pauses == Pauses(sleepSeconds, samples)
                && |r.value.locked| == |samples|
                && forall i :: 0 <= i < |samples| ==>
                     r.value.locked[i] == FiredAt(trigger, recognitionThreshold, obs, i)
    {
      match TriggerThreshold(delaySeconds, sleepSeconds) {
        case Err(e) =>
          return Err(e);
        case Ok(t) =>
          trigger := t;
      }
      counter := 0;
      var obs := Seen(samples);
      var locked: seq<bool>, pauses: seq<real> := [], [];
      var i := 0;
      while i < |samples|
        invariant 0 <= i <= |samples|
        invariant trigger == TriggerThreshold(delaySeconds, sleepSeconds).value
        invariant counter == CounterAfter(trigger, recognitionThreshold, obs[..i])
        invariant locks == old(locks) + LockCount(trigger, recognitionThreshold, obs[..i])
        invariant verifyCalls == old(verifyCalls) + VerifyCount(obs[..i])
        invariant locked == FiredSeq(trigger, recognitionThreshold, obs[..i])
        invariant pauses == Pauses(sleepSeconds, samples[..i])
        invariant VerifyCount(obs[..i]) > 0 ==> model == loaded
        invariant VerifyCount(obs[..i]) == 0 ==> model == old(model)
      {
        var fired, pause := Tick(samples[i].seen, loaded, sleepSeconds, samples[i].elapsed);
        PrefixStep(trigger, recognitionThreshold, obs, i);
        PausesStep(sleepSeconds, samples, i);
        locked, pauses := locked + [fired], pauses + [pause];
        i := i + 1;
      }
      assert obs[..i] == obs && samples[..i] == samples;
      forall k | 0 <= k < i
        ensures locked[k] == FiredAt(trigger, recognitionThreshold, obs, k)
      {
        FiredSeqAt(trigger, recognitionThreshold, obs, i, k);
      }
      r := Ok(RunLog(locked, pauses));
    }
  }
}
