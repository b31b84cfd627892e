# facelock in Dafny

facelock locks the screen when its owner walks away from the computer. A webcam
loop samples a frame every few seconds. A local face detector counts the faces
in each frame. In the packaged version, the Azure Face service's `detect` and
`verify` endpoints then decide whether the face belongs to the enrolled owner.
After enough consecutive ticks without the owner, the loop runs the platform's
lock command.

This project models the decision logic of three files:

- `facelock/face_api.py` becomes module `FaceApi`. It covers:
  - `read_image`, which dispatches an image on its URL scheme;
  - `get_reference_face_model`, which enrols a face;
  - `face_verify`, which shapes the result.

  `urlparse`'s scheme is modelled in module `Url`.
- `facelock/facelock.py` becomes module `FaceLockApp`. Its class `FaceLock` keeps the `model`, the loop `counter` and `trigger`, and counters of locks and verify calls. The class's `save_reference_face`, `face_verify`, `refresh_model` and `run` are modelled. The debounce rule of `run` is specified separately as functions over observation sequences, in module `Presence`. Module `Timing` holds the arithmetic that both loops share: `int(delay / sleep)` and `max(0, sleep - elapsed)`.
- `facelock.py` (the older stand-alone script) becomes module `Legacy`. It covers `get_lock_screen_cmd` and the `run` loop with its `counter`/`anterior` rule, the 'q' key, and the two exceptions that end it early: a lock requested on an unsupported platform, and a negative sleep.

The outside world is passed in as values:

- the Face service (`FaceApi.FaceService`: what each endpoint answers to each request);
- the web and the file system (`FaceApi.Environment`);
- the clock (`now`, and the `elapsed` time of each tick);
- the detector (a face count or an observation per tick);
- the platform name that `platform.system()` returns.

Each remote operation returns an `Exchange`: its result together with the requests it sent, in order. Python exceptions are the values of `Common.PyError`.

Three points about the code worth stating:

- The threshold is `int(delay / sleep)`. This truncates toward zero; it does not round. A zero sleep raises ZeroDivisionError.
- The lock test is a strict `counter > trigger`. The first lock therefore comes on the (trigger+1)-th consecutive miss.
- `raise_for_status` raises only for statuses 400..599. Any other status, 3xx included, goes on to the body.

The class methods also behave differently from their `face_api.py` counterparts:

- The class `face_verify` handles a failed request with `'{1}'.format(...)`, which raises IndexError. It also subscripts `[0]` on an empty face list, which raises IndexError.
- The class `save_reference_face` handles a failed connection with a `%` format that has one placeholder and two values, which raises TypeError.
- The class `save_reference_face` never calls `raise_for_status`.

All of these are modelled as the exceptions they raise.

## Model

| member | source | states |
|---|---|---|
| Timing.Truncate | facelock/facelock.py:189 | Python's `int()` on a float truncates toward zero: n ≤ x < n+1 for x ≥ 0, and n-1 < x ≤ n for x < 0 |
| Timing.TriggerThreshold | facelock/facelock.py:189 | fails exactly when sleep is 0, with ZeroDivisionError; otherwise it is `int(delay / sleep)`, the quotient truncated toward zero, for every sign; for a non-negative delay and positive sleep, the trigger is the number of whole sleep intervals in the delay (n·sleep ≤ delay < (n+1)·sleep); a negative delay gives a trigger ≤ 0 |
| Timing.SleepTime | facelock/facelock.py:247-249 | the pause is never negative; elapsed plus pause reaches the interval; the pause is 0 or exactly tops the tick up to the interval; it is at most the interval when both inputs are non-negative |
| Url.Scheme | facelock/face_api.py:25-27 | a non-empty scheme is the lowered text before the first ':' of the cleaned string, and holds no ':' |
| Url.WebUrlIffWebPrefix | facelock/face_api.py:27 | the scheme is http or https exactly when the cleaned string starts with "http:" or "https:" in any letter case |
| Url.PrefixScheme | facelock/face_api.py:25 | a cleaned string starting with a lower-case letter name and ':' (any case) has that name as its scheme |
| Url.NoColonNoScheme | facelock/face_api.py:25-33 | a string with no ':' has an empty scheme, so it is never fetched over the web |
| FaceApi.ReadImage | facelock/face_api.py:18-41 | bytes come back unchanged; a string with an http(s) prefix is fetched; any other string (in particular one without ':') is read from disk; any other value gives ValueError with the source's message |
| FaceApi.HttpsFetched | facelock/face_api.py:24-29 | every string beginning "https:" is fetched over the web |
| FaceApi.ReadImageTestWeb | test/test_facelock.py:8-16 | the web location used by the repository's test is fetched, not read from disk |
| FaceApi.ReadImageTestLocal | test/test_facelock.py:10-21 | the file location used by the repository's test is read from disk |
| FaceApi.DetectPayload | facelock/face_api.py:66-74 | a web reference is sent as JSON `{'url': ref}`; anything else is sent as the file's bytes, or fails with the read error; the content type is application/json exactly for web references |
| FaceApi.ShapeModel | facelock/face_api.py:88-90 | the model holds the face's keys plus `time` = now and `image` = the reference, with every other key of the face unchanged |
| FaceApi.GetReferenceFaceModel | facelock/face_api.py:55-93 | sends at most one detect request, none exactly when the payload cannot be built. Outcomes: no connection gives ConnectionError; a 4xx/5xx status gives HTTPError before the body is looked at; an empty face list gives ValueError("input image has no face!"); an error object gives KeyError(0); otherwise the result is the first face shaped into a model |
| FaceApi.CompareFirstFace | facelock/face_api.py:128-145 | the verify request is sent with `faceId1` = the detected face id and `faceId2` = the model's only when all three keys exist (otherwise KeyError). No connection gives ConnectionError; a 4xx/5xx status gives HTTPError; a missing confidence gives KeyError. On success the result holds exactly confidence from the verify reply, and faceId and faceRectangle from the detected face |
| FaceApi.FaceVerify | facelock/face_api.py:96-145 | at most two requests: a detect of the image's bytes (none when the image cannot be read), then a verify. A failed detect raises before any verify. An empty face list returns confidence 0.0 and the zero rectangle with no verify call. Otherwise the first face is compared with the model. Every success carries confidence and faceRectangle |
| Presence.Step | facelock/facelock.py:213-245 | a miss below the trigger adds one to the counter without locking; a miss at or above the trigger locks and leaves the counter 0; a match with a non-negative trigger gives counter 0 and no lock, and with a negative trigger it locks; a lock leaves the counter 0; a counter in 0..trigger stays there |
| Presence.CounterAfter | facelock/facelock.py:190-245 | after any ticks the counter lies in 0..trigger, and is 0 when the trigger is negative |
| Presence.CounterIsMissRunModulo | facelock/facelock.py:213-245 | the counter equals the length of the current run of misses modulo trigger+1 |
| Presence.FiresOnMultiplesOfTriggerPlusOne | facelock/facelock.py:243-245 | a tick locks exactly when it completes a run of misses whose length is a positive multiple of trigger+1 |
| Presence.MatchResets | facelock/facelock.py:229-231 | with a trigger of at least 0, a match never locks and leaves the counter at 0 |
| Presence.NegativeTriggerFiresEveryTick | facelock/facelock.py:243-245 | with a negative trigger every tick locks, matches included |
| Presence.AbsenceLocksEveryTriggerPlusOneTicks | facelock/facelock.py:192-245 | after a match or at start-up, n ticks without a face lock on exactly the ticks j with (j+1) mod (trigger+1) = 0: first on the (trigger+1)-th miss, then repeatedly |
| Presence.FirstLockOnMissTriggerPlusOne | facelock/facelock.py:243-245 | among the first trigger+1 misses, only the last one locks |
| Presence.MatchInTimeLocksNothing | facelock/facelock.py:226-245 | trigger misses followed by a match lock nothing |
| Presence.TenSecondScenario | facelock/facelock.py:189-245 | a 10 s delay at 1 s per tick gives trigger 10; ten misses and a match lock nothing; eleven misses lock once, on the eleventh |
| FaceLockApp.RefreshModel | facelock/facelock.py:143-163 | a failed load gives None and only then; a loaded model without `time` gives KeyError, and one whose `time` is neither a number nor a boolean gives TypeError; a numeric or boolean `time` (a boolean counting as 1 or 0) always gives a decision, in which the loaded model is returned as it is, and a new detect is due exactly when now − time > 24·3600 |
| FaceLockApp.VerifyAsClass | facelock/facelock.py:96-139 | sends the same requests as FaceApi.FaceVerify with the same outcome on success with faces, and on every read and key error; an empty face list, a failed connection or a 4xx/5xx status becomes IndexError |
| FaceLockApp.EnrolReply | facelock/facelock.py:70-88 | enrols exactly when the reply has a non-empty face list, whatever its status, and then the model is the first face shaped with time and image and the status is returned; no connection gives TypeError; an empty list gives ValueError |
| FaceLockApp.SaveAsClass | facelock/facelock.py:58-88 | sends at most one detect request, with the same payload as FaceApi.DetectPayload; none exactly when the payload cannot be built; the reply is read by EnrolReply |
| FaceLockApp.SaveAgreesWithFaceApi | facelock/facelock.py:58-88 | the class enrolment sends the same request as get_reference_face_model. When that request is not sent, or its reply connects with a status outside 400..599, the two give the same model or the same error |
| FaceLockApp.Observe | facelock/facelock.py:213-226 | no local face gives NoFace without a verification; a failed verification propagates; a result with a rectangle and a numeric or boolean confidence gives Faces with exactly that value (a boolean counting as 1 or 0), and only such a result gives Faces; any other confidence gives TypeError |
| FaceLockApp.VerifiedFaceIsObservable | facelock/facelock.py:222-226 | every successful class verification whose confidence is a number or a boolean yields an observation of that value |
| FaceLockApp.BooleansCountAsNumbers | facelock/facelock.py:155-226 | a boolean confidence `True` is observed as 1.0, and a model with time `True` gets a staleness decision instead of an error, as in Python's arithmetic on `bool` |
| FaceLockApp.Pauses | facelock/facelock.py:247-249 | one pause per tick; each is never negative, brings its tick up to the sampling interval, is 0 or tops the tick up exactly, and is at most the interval when the inputs are non-negative |
| FaceLockApp.FaceLock.constructor | facelock/facelock.py:25-36 | starts with the configured threshold, an empty model and zero counters |
| FaceLockApp.FaceLock.SaveReferenceFace | facelock/facelock.py:58-88 | on success the `model` field becomes the enrolled face and the status is returned; on any error the field keeps its old value |
| FaceLockApp.FaceLock.FaceVerify | facelock/facelock.py:96-139 | the field `model` becomes the loaded model, and the result is the class verification against it |
| FaceLockApp.FaceLock.Tick | facelock/facelock.py:213-249 | counter and lock follow Presence.Step; the lock count rises by one exactly when the tick locks; face_verify is called exactly on ticks with a face, and on those the `model` field becomes the stored model it reloads, while a faceless tick leaves it alone; the pause is the latency-compensated sleep |
| FaceLockApp.FaceLock.Run | facelock/facelock.py:183-249 | a zero sleep fails with ZeroDivisionError and changes nothing. Otherwise the trigger is set, the counter ends at CounterAfter, and the lock and verify counts rise by LockCount and VerifyCount. The `model` field ends as the reloaded stored model when some tick called face_verify, and as it was otherwise. Each tick's lock decision is FiredAt, and each pause is the sleep for that tick |
| Legacy.LockScreenCmd | facelock.py:12-21 | Linux and Darwin get their fixed commands and every other platform, Windows included, raises the unsupported-platform error |
| Legacy.LowByte | facelock.py:81 | `key & 0xFF` lies in 0..255, agrees with the key modulo 256, and leaves a byte unchanged |
| Legacy.Next | facelock.py:55-71 | records the new face count; a changed count clears the counter; an unchanged zero count adds one; an unchanged nonzero count leaves the tally as it was |
| Legacy.StateAfter | facelock.py:33-71 | the recorded count is the last tick's; the counter is never negative and is 0 whenever a face is in view |
| Legacy.CounterFromZeroRun | facelock.py:55-71 | the counter counts every tick while no face has been seen, and afterwards the trailing no-face ticks but one |
| Legacy.LegacyFiresIff | facelock.py:55-71 | a tick with faces never locks; before any face, tick i locks exactly when i+1 > TRIGGER; after a face, exactly when the trailing no-face run, less one but at least 1, exceeds TRIGGER |
| Legacy.LockRepeats | facelock.py:59-61 | the lock clears nothing, so it repeats on every following no-face tick |
| Legacy.SameFacesKeepState | facelock.py:55-71 | a tick with the same nonzero face count as the previous one leaves the state unchanged |
| Legacy.DefaultDelayScenario | facelock.py:25-35 | the defaults 5 s / 0.5 s give TRIGGER 10; from start-up the first lock comes on the 11th no-face tick, and after a face on the 12th |
| Legacy.QuitIndex | facelock.py:81-82 | the first frame whose key's low byte is 'q', with no earlier one |
| Legacy.Tick | facelock.py:55-71 | the new counter and face count are Next of the old ones, and the lock is issued exactly when Fires holds |
| Legacy.TicksRun | facelock.py:39-86 | the loop body runs up to and including the first 'q' tick, and only once when the sleep is negative |
| Legacy.RunOutcome | facelock.py:39-89 | how the loop ends: the unsupported-platform error when some tick that runs asks for the lock command on a platform other than Linux and Darwin; else ValueError when the sleep is negative and the first tick does not quit; else a session whose per-tick lock decisions are FiredAt for exactly the ticks up to and including the first 'q', with one sleep_seconds pause per tick before it, and released exactly when a 'q' arrived |
| Legacy.RunRaisesPlatform | facelock.py:59-61 | a tick that runs and asks for the lock command on an unsupported platform makes the run raise the unsupported-platform error |
| Legacy.RunRaisesNegativeSleep | facelock.py:81-86 | with a negative sleep, a first tick that neither quits nor raises makes the run raise ValueError |
| Legacy.RunEndsOk | facelock.py:39-89 | a loop that ran every tick up to the first 'q' (or all of them) without raising returns exactly the session RunOutcome describes |
| Legacy.WindowsRaisesAtFirstLock | facelock.py:12-21 | with the default TRIGGER of 10 on Windows, eleven ticks without a face end with the unsupported-platform error |
| Legacy.Run | facelock.py:28-89 | a zero sleep fails with ZeroDivisionError; otherwise TRIGGER is int(delay_seconds / sleep_seconds) and the loop ends exactly as RunOutcome states |

## Left out

- OpenCV is not part of this model: capture, resizing, colour conversion, `detectMultiScale`, `imshow`/`waitKey(200)` and rectangle drawing. The detector's output is an input per tick: a face count, or an observation. As a result the `display` flag is not modelled, and neither is the unused `always` flag.
- HTTP transport, headers and the API key are not modelled. A request is a `Call` value and a reply is a status and a decoded body. `urllib` fetches are an `Environment` function. JSON decoding failures of a body are not modelled.
- `pickle` saving and loading are left out. The loaded model is a parameter (an `Option` in RefreshModel, where None stands for the OSError that `refresh_model` catches).
- The `configparser` read is left out. RECOGNITION_THRESHOLD is a constructor parameter.
- The class's `lock_screen` and `os.popen`/`ctypes` are OS side effects. A lock is counted in `locks` or recorded per tick.
- FaceLockApp.FaceLock.Run: does not model the exception the class's `lock_screen` raises on a platform other than Windows, Linux and Darwin, which would end `run` at its first lock; the platform is not an input of the class.
- `frame2img` and the in-loop JPEG encoding are left out because they go through PIL.
- The click command line, the `pidfile` decorator and logging are left out.
- `time.time()` and `sleep` are left out. The current time and each tick's elapsed time are inputs; a sleep is recorded as a pause.
- The "Unable to load camera" branch of both loops is left out. It only sleeps and then falls through to reading a frame.
- FaceLockApp.RefreshModel: only the staleness decision is modelled. The re-detect request, which posts `model['data']`, and the `model.update` with the response are not.
- The commented-out copy of `refresh_model` in facelock/face_api.py is not modelled.
- FaceLockApp.FaceLock.Run, FaceLockApp.FaceLock.Tick: a tick's verification outcome is given as an `Observation`; FaceLockApp.Observe relates it to the class's face_verify result. A verification error inside `run` ends the loop in Python; the model takes only ticks whose observation was obtained.
- FaceLockApp.FaceLock.Run, Legacy.Run: the endless `while True` loops run over a finite sequence of ticks.
- Seconds and confidences are exact reals, not floating point.
- `urlparse`'s scheme follows the Python 3.12 rules: strip leading C0 controls and spaces; delete tabs and line breaks; the scheme is the text before the first ':' when it starts with a letter and holds only scheme characters.
- Url.Scheme: does not model the ValueError `urlsplit` raises for a network location with an unbalanced '[' or ']' (such as "http://[::1/me.jpg"), an invalid bracketed host, or non-ASCII characters that normalise into URL delimiters. For such strings `read_image` and `get_reference_face_model` raise before reading, fetching or sending anything, while FaceApi.ReadImage, FaceApi.DetectPayload and FaceApi.GetReferenceFaceModel go on as for any other string.
- The `response.content == b'[]'` test is modelled as a decoded empty face list. A body that decodes to an empty list but is spelled differently is not distinguished.
- The key of the KeyError raised by `[0]` on a JSON object is written as the string "0".
- Legacy.Run: the key code returned by `cv2.waitKey` is an unbounded integer per frame.
