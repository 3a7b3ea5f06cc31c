# Face verification service: decision logic

A Dafny model of the decision logic of the `face_attendance_ai` service. The
service matches a captured face against a gallery directory of enrolled images,
enrols new faces under a normalised name, lists the enrolled faces, and keeps
an audit log of verification attempts.

- `wrappers.dfy`, module `Wrappers`: `Option`, which stands for Python's `None`-or-value.
- `pytext.dfy`, module `PyText`: the Python string operations the code relies on.
  These are `str.strip()` (with Python's whitespace set), `str.lower()`,
  `endswith`/`startswith`, one-character `replace`, `rfind` and the stem of
  `os.path.splitext`.
- `face_engine.dfy`, module `FaceEngine`: `verify_face`.
  - `Scan` is the recursive specification of the gallery scan.
  - `VerifyFace` is the loop. It returns on the first entry the oracle accepts
    below the threshold, skips non-image entries and swallows oracle errors.
  - Lemmas prove first-match, no-match and error-skipping.
- `face_api.dfy`, module `FaceApi`: the handlers of `main.py`.
  - Pure helpers: name normalisation, the confidence clamp and the listing
    functions.
  - A `Server` class holds the gallery directory (whether it exists, and its
    entries in listing order), the audit log and the temporary-upload flag.
  - Ghost fields count camera captures and saved uploads, and record every
    entry passed to the oracle. They let the contracts say "before any
    capture" and "the oracle was never called".

The collaborators are parameters:
- the comparison oracle is `compare: (string, string) -> Comparison`, which
  yields an error or a `(verified, distance)` pair;
- the spoof check is `isLive: string -> bool`;
- the camera is a `Capture` value: a path, `FileNotFoundError`, or another
  exception;
- whether `shutil.copy2` succeeds when registering is the `copied` flag,
  because it can raise even when the gallery directory exists;
- the supported formats and the distance threshold are a `Settings` value.
  They live in a constants module that is not part of this model.
  `debug_test.py:60` uses 0.4 as the threshold.

The model follows what the code does, including these choices:
- Registration does not fold case. "Jane Doe" and "jane doe" are stored as
  `Jane_Doe.jpg` and `jane_doe.jpg`, so the second is not a duplicate
  (`NormaliseExample`, `NormaliseLowerExample`, `NormaliseKeepsCase`).
- Runs of spaces are not collapsed. Only the space character is replaced
  inside the name, while `strip()` removes every kind of leading and trailing
  whitespace.
- The duplicate check looks at `<clean>.jpg` only. An existing `<clean>.png`
  does not block registration.
- The gallery guard of both verification endpoints counts any directory entry,
  e.g. `.gitkeep`. Such a gallery passes the guard, and the scan then reports
  no match (`VerifyPlaceholderGallery`) rather than "gallery unavailable".

## Model

| member | source | states |
|---|---|---|
| `FaceEngine.Scan` | face_attendance_ai/face_engine.py:8-29 | A result is verified iff `matched_with` and `score` are both present; otherwise it is exactly `{verified: False, matched_with: None, score: None}`. A verified result names an entry of the listing with a supported extension, for which the oracle said verified with a distance below the threshold; the score is that distance. |
| `FaceEngine.ScanCalls` | face_attendance_ai/face_engine.py:9-20 | Every entry handed to the oracle is in the listing and has a supported extension, so non-image entries never reach the oracle. |
| `FaceEngine.SupportedEntries` | face_attendance_ai/face_engine.py:9-12 | The entries the extension filter keeps are exactly the listing's entries whose lower-cased name ends in a supported suffix. |
| `FaceEngine.VerifyFace` | face_attendance_ai/face_engine.py:8-29 | The loop returns the result `Scan` specifies, and the entries it passed to the oracle are the ones `ScanCalls` specifies. |
| `FaceEngine.ScanReturnsFirstHit` | face_attendance_ai/face_engine.py:9-26 | If entry k is accepted and no earlier entry is, the scan returns entry k with the oracle's distance for it. |
| `FaceEngine.MatchIsFirstHit` | face_attendance_ai/face_engine.py:9-26 | A matched entry occurs in the listing at a position before which every entry was unsupported, made the oracle fail, or was rejected. |
| `FaceEngine.NoMatchIffNoHit` | face_attendance_ai/face_engine.py:9-29 | The scan returns the no-match result iff no entry is accepted; this covers the empty listing. |
| `FaceEngine.ScanSkipsNonHit` | face_attendance_ai/face_engine.py:9-28 | Removing an entry that is not accepted leaves the result unchanged. |
| `FaceEngine.OracleErrorIsSkipped` | face_attendance_ai/face_engine.py:15-28 | An entry on which the oracle raises leaves the result unchanged, so a later accepted entry is still returned. |
| `FaceEngine.CallsWithoutHit` | face_attendance_ai/face_engine.py:9-20 | When nothing is accepted, the oracle is consulted exactly once per supported entry, in listing order. |
| `FaceEngine.CallsUpToFirstHit` | face_attendance_ai/face_engine.py:9-26 | With a first accepted entry at k, the oracle is consulted exactly on the supported entries up to and including k, and on nothing after. |
| `FaceEngine.FirstMatchNotBestMatch` | face_attendance_ai/face_engine.py:21-26 | Example: an earlier entry at distance 0.3 wins over a later one at 0.1. |
| `PyText.Strip` | face_attendance_ai/main.py:84 | The stripped name is empty iff every character of the name is whitespace. A non-empty result starts and ends with non-whitespace. It is the contiguous part of the name between a whitespace-only prefix and a whitespace-only suffix, so no inner character is dropped. |
| `FaceApi.Normalise` | face_attendance_ai/main.py:87 | The normalised name has the length of the stripped name and contains no space, `/` or `\`. Each character is `_` where the stripped name has one of those three, and otherwise the same character, so case is kept. |
| `FaceApi.NormaliseIdempotent` | face_attendance_ai/main.py:87 | Normalising a normalised name changes nothing. |
| `FaceApi.NormaliseSpaceOnly` | face_attendance_ai/main.py:87 | A trimmed name without slashes or backslashes is normalised by replacing its spaces with `_`. |
| `FaceApi.NormaliseFixesSafe` | face_attendance_ai/main.py:87 | A trimmed name without space, `/` or `\` normalises to itself. |
| `FaceApi.NormaliseExample` | face_attendance_ai/main.py:87 | "Jane Doe" is stored as `Jane_Doe`. |
| `FaceApi.NormaliseLowerExample` | face_attendance_ai/main.py:87 | "jane doe" is stored as `jane_doe`. |
| `FaceApi.NormaliseKeepsCase` | face_attendance_ai/main.py:87-89 | "jane doe" and "Jane Doe" normalise to different names, so they do not collide. |
| `FaceApi.Confidence` | face_attendance_ai/main.py:174 | Confidence lies in [0, 100]. Distance 0 or less gives 100, distance 1 or more gives 0, and in between it is `(1 - d) * 100`. |
| `FaceApi.ConfidenceAntitone` | face_attendance_ai/main.py:174 | A smaller distance never gives a lower confidence. |
| `FaceApi.MatchConfidenceAboveFloor` | face_attendance_ai/main.py:172-174 | A match with 0 <= d < threshold <= 1 has confidence above `(1 - threshold) * 100`. |
| `FaceApi.ListedFaces` | face_attendance_ai/main.py:125-132 | Every listed entry's file name ends, case-insensitively, in `.jpg`, `.jpeg` or `.png`. It is an entry of the directory, and its display name is its `splitext` stem with `_` shown as a space. |
| `FaceApi.ImageEntries` | face_attendance_ai/main.py:126-127 | The filter keeps exactly the directory entries with one of the three image suffixes. |
| `FaceApi.ListedFilenames` | face_attendance_ai/main.py:125-134 | The listed file names are exactly the image entries in directory order, so `count` equals their number. |
| `FaceApi.ListedFacesAppend` | face_attendance_ai/main.py:126-132 | Listing keeps directory order: the listing of `a + b` is the listing of `a` followed by that of `b`. |
| `FaceApi.StemOfListedImage` | face_attendance_ai/main.py:128 | For a slash-free name ending in an extension, the stem is the name without the extension, unless everything before the extension is dots; then `splitext` keeps the whole name. |
| `FaceApi.RegisteredNameDisplay` | face_attendance_ai/main.py:87-128 | A registered `<clean>.jpg` is listed. Its display name has the stripped name's length, and space, `/`, `\` and `_` all show as a space, for a name that is not made of dots only. |
| `FaceApi.JpgStem` | face_attendance_ai/main.py:127-128 | `<stem>.jpg`, for a slash-free stem that is not all dots, is listed, and its `splitext` stem is `stem`. |
| `FaceApi.JpgFileIsSupported` | face_attendance_ai/face_engine.py:11 | A file name ending in `.jpg` passes the scan's extension filter whenever `.jpg` is a supported format. |
| `FaceApi.RegisteredFileIsScanned` | face_attendance_ai/main.py:87-89 | A face registered as `<clean>.jpg` passes the scan's extension filter whenever `.jpg` is a supported format. |
| `FaceApi.Server.Verify` | face_attendance_ai/main.py:46-77 | A missing or empty gallery directory gives 400 before any capture. A capture raising `FileNotFoundError` gives 500. Any other capture error, or a failed spoof check, gives `{verified: False, matched_with: None, score: 0.0}` with no oracle call and no log record. Otherwise the reply is the scan result, and exactly one record `(matched_with, verified, score)` is appended. The gallery is never changed. |
| `FaceApi.Server.RegisterFace` | face_attendance_ai/main.py:79-116 | An empty or all-whitespace name gives 400 with nothing captured or changed. An existing `<clean>.jpg` gives 400 with nothing captured or written. A capture error gives 500, and a spoof failure gives 400, each with the gallery unchanged. A missing directory, or any other failure of the copy (the `copied` parameter, e.g. a file name too long for the filesystem), gives 500 with nothing written. On success the gallery is the old one plus exactly `<clean>.jpg`, which was not there before. The log is never touched. |
| `FaceApi.Server.ListRegisteredFaces` | face_attendance_ai/main.py:118-134 | A missing directory gives an empty list without a count. Otherwise the reply is `ListedFaces` of the directory, with its length as `count`. |
| `FaceApi.Server.VerifyFaceFromPhoto` | face_attendance_ai/main.py:140-201 | The checks run in order: a missing content type gives 500, a non-`image/` type gives 400, and an empty gallery gives 400, each before any upload is saved. A failed spoof check yields `{match: False, confidence: 0.0}` with no oracle call and no log record. A match yields `Confidence(score)` and the record `(matched_with, True, score)`. No match yields 0.0 and the record `(None, False, None)`. The temporary file is gone on every modelled exit. |
| `FaceApi.RegisterTwice` | face_attendance_ai/main.py:89-103 | After a successful registration, registering the same name again gives 400 and uses the camera no further. |
| `FaceApi.AliceScenario` | face_attendance_ai/main.py:169-182 | A gallery `["alice.jpg"]` matched at distance 0.25 gives `{verified: True, matched_with: "alice.jpg", score: 0.25}` and confidence 75. |
| `FaceApi.PlaceholderOnlyGallery` | face_attendance_ai/face_engine.py:9-29 | When `.gitkeep` is not a supported format, scanning a gallery holding only `.gitkeep` reports no match. |
| `FaceApi.VerifyPlaceholderGallery` | face_attendance_ai/main.py:50-67 | A gallery holding only `.gitkeep` passes the guard of `POST /api/verify`. A live capture is taken and scanned, and the reply is the no-match result rather than 400. The oracle is not called and the record `(None, False, None)` is logged. |

## Left out

- FastAPI routing, decorators, the slowapi rate limits and the pydantic classes are framework glue. The response bodies are datatypes: `VerifyResult`, `RegisterResponse`, `ClientVerifyResponse`, `ListResponse`, and `Reply` for an `HTTPException`.
- The liveness probe `GET /` returns a constant and is not modelled.
- DeepFace's embedding and distance computation is a foreign ML library with float numerics. It is the oracle parameter `compare`, which sees the model and detector settings as fixed.
- `utils.py` is not part of this model. `capture_face` is a `Capture` parameter. `basic_spoof_check` is the `isLive` parameter. `log_verification` is an append to `log`; its timestamp and any failure of it are not modelled.
- Image contents are not modelled. The gallery holds file names only, and the oracle is a fixed function of the capture path and the entry name. A registration records the new file name, not the copied pixels.
- `os.listdir` order is unspecified; the model takes it as the given sequence, and a new registration is appended at its end.
- `register_face` and `list_registered_faces` hard-code the directory `images/registered`, while both verification endpoints use the configured gallery directory. The model takes them to be the same directory, on a case-sensitive filesystem.
- `round(confidence, 1)` is float rounding. The model states the clamp over reals.
- The async read of the upload and the real temporary file are reduced to the `tempPath` parameter, the `tempExists` flag and the `uploadsSaved` counter. A failing read or write of the upload is not modelled. In the source that path raises outside the `try`/`finally`, so the temporary file is left behind and the reply is 500. A failing delete is not modelled either.
- Exceptions inside `verify_face` other than the oracle's are not modelled, e.g. the directory vanishing between the guard and the scan. Neither is the listing endpoint's 500 path.
- Concurrent requests: the code has no locking, and races between registrations are not modelled.
- `test_e001_verification.py` and `debug_test.py` are manual webcam scripts. They only corroborate the 0.4 threshold and the confidence formula.
- PyText.Lower: lower-cases ASCII letters only, where Python's `str.lower()` also lower-cases other letters. For the ASCII suffixes `.jpg`, `.jpeg` and `.png` this agrees with Python, but a configured non-ASCII suffix would not.
