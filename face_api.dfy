/** facelock/face_api.py: reading an image, enrolling a reference face and
    verifying a new image against it through the Face service's detect and
    verify endpoints. The service, the web and the file system are parameters;
    every function returns its outcome together with the requests it sent. */
module FaceApi {
  import opened Common
  import opened Url

  const NotImageMessage := "input must be a image file url or binary image data"
  const NoFaceMessage := "input image has no face!"

  /** The argument of read_image: a str, a bytes object, or any other value. */
  datatype ImageInput = Text(s: string) | Binary(data: Bytes) | OtherValue

  /** What lies outside the process: fetching a URL with urllib, and reading a
      local file. Either may fail with the exception it raises. */
  datatype Environment = Environment(fetch: string -> Result<Bytes>, readFile: string -> Result<Bytes>)

  /** The body of a detect request: `json.dumps({'url': ...})` or raw bytes. */
  datatype Payload = UrlJson(url: string) | OctetStream(data: Bytes)

  /** The Content-Type header sent with a payload. */
  function ContentType(p: Payload): string
  {
    match p
    case UrlJson(_) => "application/json"
    case OctetStream(_) => "application/octet-stream"
  }

  /** A request sent to the Face service: detect faces in a payload, or
      compare two face ids (the JSON body `{faceId1, faceId2}`). */
  datatype Call = Detect(payload: Payload) | Verify(faceId1: Json, faceId2: Json)

  /** The answer to a request: no connection, or a status and a decoded body. */
  datatype Reply<B> = Unreachable | Reply(status: int, body: B)

  /** A detect body: the list of faces, or the error object sent instead. */
  datatype DetectBody = FaceList(faces: seq<Dict>) | ErrorObject(error: Dict)

  /** The Face service: what each endpoint answers to each request. */
  datatype FaceService = FaceService(detect: Payload -> Reply<DetectBody>, verify: (Json, Json) -> Reply<Dict>)

  /** An outcome together with the requests sent to reach it, in order. */
  datatype Exchange<T> = Exchange(result: Result<T>, sent: seq<Call>)

  /** `response.raise_for_status()` raises for a 4xx or 5xx status only. */
  predicate IsHttpError(status: int) { 400 <= status < 600 }

  /** A reply that neither failed to connect nor carries an error status. */
  predicate Accepted<B>(reply: Reply<B>) { reply.Reply? && !IsHttpError(reply.status) }

  /** read_image: bytes are returned unchanged, a web URL is fetched, any other
      string is read as a local file, and any other value is refused. */
  function ReadImage(image: ImageInput, env: Environment): (r: Result<Bytes>)
    ensures image.Binary? ==> r == Ok(image.data)
    ensures image.Text? && HasWebPrefix(Clean(image.s)) ==> r == env.fetch(image.s)
    ensures image.Text? && !HasWebPrefix(Clean(image.s)) ==> r == env.readFile(image.s)
    ensures image.Text? && ':' !in image.s ==> r == env.readFile(image.s)
    ensures image.OtherValue? ==> r == Err(ValueError(NotImageMessage))
  {
    match image
    case Text(s) =>
      WebUrlIffWebPrefix(s);
      assert ':' !in s ==> !IsWebUrl(s) by {
        if ':' !in s { NoColonNoScheme(s); }
      }
      if IsWebUrl(s) then env.fetch(s) else env.readFile(s)
    case Binary(data) => Ok(data)
    case OtherValue => Err(ValueError(NotImageMessage))
  }

  /** A string that starts with "https:" is fetched over the web. */
  lemma HttpsFetched(rest: string, env: Environment)
    ensures ReadImage(Text("https:" + rest), env) == env.fetch("https:" + rest)
  {
    var s := "https:" + rest;
    assert s[..6] == "https:";
    assert StripLeading(s) == s;
    SafePrefixKept(s, 6);
    assert Lower(Clean(s)[..6]) == "https:";
  }

  /** The web location read by the repository's tests is fetched over the web. */
  lemma ReadImageTestWeb(env: Environment, web: string)
    requires web == "https:" + "//upload.wikimedia.org/wikipedia/commons/7/7f/Colin_Firth_2009.jpg"
    ensures ReadImage(Text(web), env) == env.fetch(web)
  {
    HttpsFetched("//upload.wikimedia.org/wikipedia/commons/7/7f/Colin_Firth_2009.jpg", env);
  }

  /** The file location read by the repository's tests is read from disk. */
  lemma ReadImageTestLocal(env: Environment, local: string)
    requires local == "test/resource/colin-firth.jpg"
    ensures ReadImage(Text(local), env) == env.readFile(local)
  {
    assert forall k :: 0 <= k < |local| ==> local[k] != ':';
  }

  /** urlsplit's deletions leave a prefix free of tabs and line breaks as it is. */
  lemma {:induction false} SafePrefixKept(s: string, n: nat)
    requires n <= |s|
    requires forall k :: 0 <= k < n ==> !IsUnsafe(s[k])
    ensures n <= |RemoveUnsafe(s)| && RemoveUnsafe(s)[..n] == s[..n]
  {
    if n > 0 {
      SafePrefixKept(s[1..], n - 1);
      var t := RemoveUnsafe(s[1..]);
      assert RemoveUnsafe(s) == [s[0]] + t;
      assert ([s[0]] + t)[..n] == [s[0]] + t[..n - 1];
      assert s[..n] == [s[0]] + s[1..][..n - 1];
    }
  }

  /** The detect payload for a reference image: a web URL is sent as JSON
      `{'url': ...}`, anything else as the bytes of the local file. */
  function DetectPayload(ref: string, env: Environment): (r: Result<Payload>)
    ensures HasWebPrefix(Clean(ref)) ==> r == Ok(UrlJson(ref))
    ensures !HasWebPrefix(Clean(ref)) ==>
              match env.readFile(ref)
              case Ok(data) => r == Ok(OctetStream(data))
              case Err(e) => r == Err(e)
    ensures r.Ok? ==> (ContentType(r.value) == "application/json" <==> HasWebPrefix(Clean(ref)))
  {
    WebUrlIffWebPrefix(ref);
    if IsWebUrl(ref) then Ok(UrlJson(ref))
    else
      match ReadImage(Text(ref), env)
      case Ok(data) => Ok(OctetStream(data))
      case Err(e) => Err(e)
  }

  /** The stored model: the detected face with `time` and `image` set, every
      other key of the face kept as it was. */
  function ShapeModel(face: Dict, now: real, ref: string): (m: Dict)
    ensures m.Keys == face.Keys + {"time", "image"}
    ensures m["time"] == JNum(now) && m["image"] == JStr(ref)
    ensures forall k :: k in face && k != "time" && k != "image" ==> m[k] == face[k]
  {
    face["time" := JNum(now)]["image" := JStr(ref)]
  }

  /** get_reference_face_model: one detect request for the reference image;
      a 4xx/5xx status raises before the body is looked at, an empty face
      list raises ValueError, otherwise the first face becomes the model. */
  function GetReferenceFaceModel(ref: string, now: real, env: Environment, service: FaceService): (r: Exchange<Dict>)
    ensures |r.sent| <= 1
    ensures r.sent == [] <==> DetectPayload(ref, env).Err?
    ensures r.sent == [] ==> r.result == Err(DetectPayload(ref, env).error)
    ensures r.sent != [] ==> r.sent[0] == Detect(DetectPayload(ref, env).value)
    ensures r.sent != [] ==>
              match service.detect(r.sent[0].payload)
              case Unreachable => r.result == Err(ConnectionError)
              case Reply(status, body) =>
                if IsHttpError(status) then r.result == Err(HTTPError(status))
                else if body == FaceList([]) then r.result == Err(ValueError(NoFaceMessage))
                else if body.FaceList? then r.result == Ok(ShapeModel(body.faces[0], now, ref))
                else r.result == Err(KeyError("0"))
    ensures r.result.Ok? ==> "time" in r.result.value && "image" in r.result.value
  {
    match DetectPayload(ref, env)
    case Err(e) => Exchange(Err(e), [])
    case Ok(p) =>
      var sent := [Detect(p)];
      match service.detect(p)
      case Unreachable => Exchange(Err(ConnectionError), sent)
      case Reply(status, body) =>
        if IsHttpError(status) then Exchange(Err(HTTPError(status)), sent)
        else
          match body
          // the error object is a dict: `json.loads(...)[0]` raises KeyError(0)
          case ErrorObject(_) => Exchange(Err(KeyError("0")), sent)
          case FaceList(faces) =>
            if faces == [] then Exchange(Err(ValueError(NoFaceMessage)), sent)
            else Exchange(Ok(ShapeModel(faces[0], now, ref)), sent)
  }

  /** The default result of face_verify when the image holds no face. */
  const NoFaceResult: Dict :=
    map["confidence" := JNum(0.0),
        "faceRectangle" := JObj(map["width" := JNum(0.0), "height" := JNum(0.0),
                                    "left" := JNum(0.0), "top" := JNum(0.0)])]

  /** The detect reply for an image's bytes. */
  function DetectImage(service: FaceService, data: Bytes): Reply<DetectBody>
  {
    service.detect(OctetStream(data))
  }

  /** The second half of face_verify: compare the first detected face with the
      model's face id. `sent` holds the detect request already made. */
  function CompareFirstFace(model: Dict, face: Dict, service: FaceService, sent: seq<Call>): (r: Exchange<Dict>)
    ensures r.sent == sent || (|r.sent| == |sent| + 1 && r.sent[..|sent|] == sent)
    ensures |r.sent| == |sent| + 1 <==> "faceId" in face && "faceRectangle" in face && "faceId" in model
    ensures |r.sent| == |sent| + 1 ==> r.sent[|sent|] == Verify(face["faceId"], model["faceId"])
    ensures "faceId" !in face || "faceRectangle" !in face || "faceId" !in model ==>
              r.result.Err? && r.result.error.KeyError?
    ensures |r.sent| == |sent| + 1 ==>
              match service.verify(face["faceId"], model["faceId"])
              case Unreachable => r.result == Err(ConnectionError)
              case Reply(status, body) =>
                if IsHttpError(status) then r.result == Err(HTTPError(status))
                else if "confidence" !in body then r.result == Err(KeyError("confidence"))
                else r.result.Ok?
    ensures r.result.Ok? ==>
              && |r.sent| == |sent| + 1
              && var reply := service.verify(face["faceId"], model["faceId"]);
              && Accepted(reply) && "confidence" in reply.body
              && r.result.value.Keys == {"confidence", "faceRectangle", "faceId"}
              && r.result.value["confidence"] == reply.body["confidence"]
              && r.result.value["faceId"] == face["faceId"]
              && r.result.value["faceRectangle"] == face["faceRectangle"]
  {
    if "faceId" !in face then Exchange(Err(KeyError("faceId")), sent)
    else if "faceRectangle" !in face then Exchange(Err(KeyError("faceRectangle")), sent)
    else if "faceId" !in model then Exchange(Err(KeyError("faceId")), sent)
    else
      var sent' := sent + [Verify(face["faceId"], model["faceId"])];
      match service.verify(face["faceId"], model["faceId"])
      case Unreachable => Exchange(Err(ConnectionError), sent')
      case Reply(status, body) =>
        if IsHttpError(status) then Exchange(Err(HTTPError(status)), sent')
        else if "confidence" !in body then Exchange(Err(KeyError("confidence")), sent')
        else
          Exchange(Ok(map["confidence" := body["confidence"],
                          "faceRectangle" := face["faceRectangle"],
                          "faceId" := face["faceId"]]), sent')
  }

  /** face_verify: detect the faces in an image; with none, report confidence
      0.0 and a zero rectangle without calling verify; otherwise compare the
      first face with the model's and report the service's confidence. */
  function FaceVerify(model: Dict, image: ImageInput, env: Environment, service: FaceService): (r: Exchange<Dict>)
    ensures |r.sent| <= 2
    ensures r.sent == [] <==> ReadImage(image, env).Err?
    ensures r.sent == [] ==> r.result == Err(ReadImage(image, env).error)
    ensures r.sent != [] ==> r.sent[0] == Detect(OctetStream(ReadImage(image, env).value))
    ensures r.sent != [] && !Accepted(DetectImage(service, ReadImage(image, env).value)) ==>
              && |r.sent| == 1
              && r.result == match DetectImage(service, ReadImage(image, env).value)
                             case Unreachable => Err(ConnectionError)
                             case Reply(status, _) => Err(HTTPError(status))
    ensures r.sent != [] && Accepted(DetectImage(service, ReadImage(image, env).value))
                         && DetectImage(service, ReadImage(image, env).value).body.ErrorObject? ==>
              r == Exchange(Err(KeyError("0")), r.sent) && |r.sent| == 1
    ensures r.sent != [] && Accepted(DetectImage(service, ReadImage(image, env).value))
                         && DetectImage(service, ReadImage(image, env).value).body.FaceList?
                         && DetectImage(service, ReadImage(image, env).value).body.faces != [] ==>
              r == CompareFirstFace(model, DetectImage(service, ReadImage(image, env).value).body.faces[0], service, r.sent[..1])
    ensures r.sent != [] && Accepted(DetectImage(service, ReadImage(image, env).value))
                         && DetectImage(service, ReadImage(image, env).value).body == FaceList([]) ==>
              r == Exchange(Ok(NoFaceResult), r.sent) && |r.sent| == 1
    ensures |r.sent| == 2 ==>
              var body := DetectImage(service, ReadImage(image, env).value).body;
              && body.FaceList? && |body.faces| > 0
              && var face := body.faces[0];
              && "faceId" in face && "faceRectangle" in face && "faceId" in model
              && r.sent[1] == Verify(face["faceId"], model["faceId"])
              && (r.result.Ok? ==>
                    var reply := service.verify(face["faceId"], model["faceId"]);
                    && Accepted(reply) && "confidence" in reply.body
                    && r.result.value.Keys == {"confidence", "faceRectangle", "faceId"}
                    && r.result.value["confidence"] == reply.body["confidence"]
                    && r.result.value["faceId"] == face["faceId"]
                    && r.result.value["faceRectangle"] == face["faceRectangle"])
    ensures r.result.Ok? ==> |r.sent| == 2 || r.result.value == NoFaceResult
    ensures r.result.Ok? ==> "confidence" in r.result.value && "faceRectangle" in r.result.value
  {
    match ReadImage(image, env)
    case Err(e) => Exchange(Err(e), [])
    case Ok(data) =>
      var sent := [Detect(OctetStream(data))];
      match DetectImage(service, data)
      case Unreachable => Exchange(Err(ConnectionError), sent)
      case Reply(status, body) =>
        if IsHttpError(status) then Exchange(Err(HTTPError(status)), sent)
        else
          match body
          case ErrorObject(_) => Exchange(Err(KeyError("0")), sent)
          case FaceList(faces) =>
            if faces == [] then Exchange(Ok(NoFaceResult), sent)
            else CompareFirstFace(model, faces[0], service, sent)
  }
}
