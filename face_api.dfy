/**
  The request handlers of the face-verification service (`main.py`): webcam
  verification, registration, the listing of registered faces and the upload
  endpoint, over an explicit gallery directory and audit log. The camera, the
  spoof heuristic and the comparison oracle are parameters.
 */
module FaceApi {
  import opened Wrappers
  import opened PyText
  import opened FaceEngine

  // ---------------------------------------------------------------------------
  // Name normalisation

  /** The characters registration replaces by `_` inside a name. */
  predicate PathUnsafe(c: char) {
    c == ' ' || c == '/' || c == '\\'
  }

  /** `name.strip().replace(" ", "_").replace("/", "_").replace("\\", "_")`:
      the stripped name with every space, slash and backslash turned into `_`.
      Case is kept and runs of spaces are not collapsed. */
  function Normalise(name: string): (clean: string)
    ensures |clean| == |Strip(name)|
    ensures forall i :: 0 <= i < |clean| ==>
      clean[i] == if PathUnsafe(Strip(name)[i]) then '_' else Strip(name)[i]
    ensures forall i :: 0 <= i < |clean| ==> !PathUnsafe(clean[i])
  {
    ReplaceChar(ReplaceChar(ReplaceChar(Strip(name), ' ', '_'), '/', '_'), '\\', '_')
  }

  /** Normalising a normalised name changes nothing. */
  lemma NormaliseIdempotent(name: string)
    ensures Normalise(Normalise(name)) == Normalise(name)
  {
    var clean := Normalise(name);
    var s := Strip(name);
    if clean != [] {
      assert clean[0] == '_' || clean[0] == s[0];
      assert clean[|clean| - 1] == '_' || clean[|clean| - 1] == s[|s| - 1];
    }
    StripKeepsTrimmed(clean);
    NormaliseFixesSafe(clean);
  }

  /** A trimmed name with no unsafe character is its own normal form. */
  lemma NormaliseFixesSafe(clean: string)
    requires Strip(clean) == clean
    requires forall i :: 0 <= i < |clean| ==> !PathUnsafe(clean[i])
    ensures Normalise(clean) == clean
  {
    var n := Normalise(clean);
    assert |n| == |clean|;
    forall i | 0 <= i < |n| ensures n[i] == clean[i] {
      assert !PathUnsafe(clean[i]);
    }
  }

  /** "Jane Doe" is stored under `Jane_Doe`. */
  lemma NormaliseExample()
    ensures Normalise("Jane Doe") == "Jane_Doe"
  {
    NormaliseSpaceOnly("Jane Doe", "Jane_Doe");
  }

  /** "jane doe" is stored under `jane_doe`. */
  lemma NormaliseLowerExample()
    ensures Normalise("jane doe") == "jane_doe"
  {
    NormaliseSpaceOnly("jane doe", "jane_doe");
  }

  /** Case is kept, so "jane doe" and "Jane Doe" do not collide. */
  lemma NormaliseKeepsCase()
    ensures Normalise("jane doe") != Normalise("Jane Doe")
  {
    NormaliseLowerExample();
    NormaliseExample();
    var lower, upper := Normalise("jane doe"), Normalise("Jane Doe");
    assert lower[0] == 'j' && upper[0] == 'J';
  }

  /** Normalising a trimmed name whose only unsafe characters are spaces
      replaces those spaces. */
  lemma NormaliseSpaceOnly(name: string, clean: string)
    requires name != [] && !IsSpace(name[0]) && !IsSpace(name[|name| - 1])
    requires |clean| == |name|
    requires forall i :: 0 <= i < |name| ==> name[i] != '/' && name[i] != '\\'
    requires forall i :: 0 <= i < |name| ==> clean[i] == if name[i] == ' ' then '_' else name[i]
    ensures Normalise(name) == clean
  {
    StripKeepsTrimmed(name);
  }

  // ---------------------------------------------------------------------------
  // Confidence

  /** `max(0.0, min(100.0, (1 - distance) * 100))`, over the reals. */
  function Confidence(distance: real): (c: real)
    ensures 0.0 <= c <= 100.0
    ensures distance <= 0.0 ==> c == 100.0
    ensures distance >= 1.0 ==> c == 0.0
    ensures 0.0 <= distance <= 1.0 ==> c == (1.0 - distance) * 100.0
  {
    var raw := (1.0 - distance) * 100.0;
    var capped := if raw < 100.0 then raw else 100.0;
    if capped > 0.0 then capped else 0.0
  }

  /** A smaller distance never gives a lower confidence. */
  lemma ConfidenceAntitone(d1: real, d2: real)
    requires d1 <= d2
    ensures Confidence(d1) >= Confidence(d2)
  {
  }

  /** A match (distance of at least 0, below a threshold of at most 1) has a
      confidence above `(1 - threshold) * 100`, so above 60 for threshold 0.4. */
  lemma MatchConfidenceAboveFloor(distance: real, threshold: real)
    requires 0.0 <= distance < threshold <= 1.0
    ensures Confidence(distance) > (1.0 - threshold) * 100.0
  {
  }

  // ---------------------------------------------------------------------------
  // Records and replies

  /** One audit-log record; the timestamp is not modelled. */
  datatype AuditRecord = AuditRecord(identity: Option<string>, verified: bool, distance: Option<real>)

  /** What the camera collaborator does when asked for a capture: it yields the
      path of the saved frame, or raises `FileNotFoundError`, or raises
      another exception. */
  datatype Capture = Captured(path: string) | CaptureNotFound | CaptureError

  /** A handler's outcome: a 200 response body, or an `HTTPException`. */
  datatype Reply<T> = Ok(body: T) | HttpError(status: int, detail: string)

  datatype RegisterResponse = RegisterResponse(success: bool, message: string, name: Option<string>)

  datatype ClientVerifyResponse = ClientVerifyResponse(matched: bool, confidence: real)

  datatype FaceEntry = FaceEntry(name: string, filename: string)

  /** The body of `/api/registered`; `count` is absent when the directory is missing. */
  datatype ListResponse = ListResponse(registeredFaces: seq<FaceEntry>, count: Option<nat>)

  const NoFacesMessage := "No registered faces found. Please add faces to images/registered/ directory."
  const FilesMissingMessage := "Required files or directories not found"
  const EmptyNameMessage := "Name cannot be empty"
  const AlreadyRegisteredPrefix := "Face already registered for "
  const SpoofRegistrationMessage := "Face capture failed spoof detection. Please try again with better lighting."
  const RegistrationFailedMessage := "Registration failed due to internal error"
  const RegisteredPrefix := "Face registered successfully for "
  const NotImageMessage := "File must be an image"
  const NoEmployeesMessage := "No registered employees found in system"
  const VerificationFailedMessage := "Face verification failed"

  /** The `/api/verify` body when the capture fails the spoof check or the
      handler hits an unexpected error: not verified, with score 0.0. */
  const Refused := VerifyResult(false, None, Some(0.0))

  // ---------------------------------------------------------------------------
  // Listing

  /** The fixed allow-list the listing endpoint filters with. */
  const ListingFormats: seq<string> := [".jpg", ".jpeg", ".png"]

  predicate IsListedImage(filename: string) {
    EndsWithAny(Lower(filename), ListingFormats)
  }

  /** `os.path.splitext(filename)[0].replace("_", " ")`. */
  function DisplayName(filename: string): string {
    ReplaceChar(SplitExtStem(filename), '_', ' ')
  }

  /** The `registered_faces` list built from a directory listing. */
  function ListedFaces(entries: seq<string>): (faces: seq<FaceEntry>)
    ensures forall k :: 0 <= k < |faces| ==>
      && IsListedImage(faces[k].filename)
      && faces[k].filename in entries
      && faces[k].name == DisplayName(faces[k].filename)
  {
    if entries == [] then []
    else
      var rest := ListedFaces(entries[1..]);
      if IsListedImage(entries[0]) then
        var faces := [FaceEntry(DisplayName(entries[0]), entries[0])] + rest;
        assert forall k :: 1 <= k < |faces| ==> faces[k] == rest[k - 1];
        faces
      else rest
  }

  /** The image entries of a directory listing, in listing order. */
  function ImageEntries(entries: seq<string>): (images: seq<string>)
    ensures forall e :: e in images <==> e in entries && IsListedImage(e)
  {
    if entries == [] then []
    else if IsListedImage(entries[0]) then [entries[0]] + ImageEntries(entries[1..])
    else ImageEntries(entries[1..])
  }

  /** The listing shows exactly the image entries, in directory order: so every
      image entry is listed, once per occurrence, and `count` is their number. */
  lemma {:induction false} ListedFilenames(entries: seq<string>)
    ensures |ListedFaces(entries)| == |ImageEntries(entries)|
    ensures forall k :: 0 <= k < |ListedFaces(entries)| ==> ListedFaces(entries)[k].filename == ImageEntries(entries)[k]
  {
    if entries != [] {
      var rest := entries[1..];
      ListedFilenames(rest);
      var faces, images := ListedFaces(rest), ImageEntries(rest);
      var all, allImages := ListedFaces(entries), ImageEntries(entries);
      if IsListedImage(entries[0]) {
        assert all == [FaceEntry(DisplayName(entries[0]), entries[0])] + faces;
        assert allImages == [entries[0]] + images;
        forall k | 0 <= k < |all|
          ensures all[k].filename == allImages[k]
        {
          if k > 0 {
            assert all[k] == faces[k - 1] && allImages[k] == images[k - 1];
          }
        }
      } else {
        assert all == faces && allImages == images;
      }
    }
  }

  /** The listing keeps directory order: listing two parts of a directory one
      after the other gives the listing of the whole. */
  lemma {:induction false} ListedFacesAppend(a: seq<string>, b: seq<string>)
    ensures ListedFaces(a + b) == ListedFaces(a) + ListedFaces(b)
  {
    if a == [] {
      assert a + b == b;
    } else {
      var ab := a + b;
      assert ab[0] == a[0];
      assert ab[1..] == a[1..] + b;
      ListedFacesAppend(a[1..], b);
    }
  }

  /** A dot followed by characters other than dots, as each listed format is. */
  predicate IsExtension(ext: string) {
    |ext| > 0 && ext[0] == '.' && forall j :: 1 <= j < |ext| ==> ext[j] != '.'
  }

  /** For an image named `<stem><ext>` (no `/`, as directory entries
      are), the stem is the name without its extension, unless the part before
      the extension is all dots, in which case `splitext` keeps the whole name. */
  lemma StemOfListedImage(filename: string, ext: string)
    requires IsExtension(ext) && EndsWith(Lower(filename), ext)
    requires '/' !in filename
    ensures var n := |filename| - |ext|;
      SplitExtStem(filename)
        == if forall i :: 0 <= i < n ==> filename[i] == '.' then filename else filename[..n]
  {
    var n := |filename| - |ext|;
    var low := Lower(filename);
    assert low[n] == ext[0];
    forall i | n < i < |filename| ensures filename[i] != '.' {
      assert low[i] == ext[i - n];
    }
    StemAtLastDot(filename, n);
  }

  /** What the listing shows for a registered name: the file `<clean>.jpg`
      is listed, and its display name is the stripped name with spaces,
      slashes, backslashes and underscores all shown as spaces (provided the
      name is not made of dots only). */
  lemma RegisteredNameDisplay(name: string)
    requires exists i :: 0 <= i < |Strip(name)| && Strip(name)[i] != '.'
    ensures IsListedImage(Normalise(name) + ".jpg")
    ensures |DisplayName(Normalise(name) + ".jpg")| == |Strip(name)|
    ensures forall i :: 0 <= i < |Strip(name)| ==>
      DisplayName(Normalise(name) + ".jpg")[i]
        == if PathUnsafe(Strip(name)[i]) || Strip(name)[i] == '_' then ' ' else Strip(name)[i]
  {
    var clean := Normalise(name);
    var s := Strip(name);
    forall i | 0 <= i < |clean| ensures clean[i] != '/' {
      assert !PathUnsafe(clean[i]);
    }
    var j :| 0 <= j < |s| && s[j] != '.';
    assert clean[j] != '.';
    JpgStem(clean);
  }

  /** `<stem>.jpg`, for a slash-free stem that is not all dots, is a listed
      image whose `splitext` stem is `stem`. */
  lemma JpgStem(stem: string)
    requires forall i :: 0 <= i < |stem| ==> stem[i] != '/'
    requires exists i :: 0 <= i < |stem| && stem[i] != '.'
    ensures IsListedImage(stem + ".jpg")
    ensures SplitExtStem(stem + ".jpg") == stem
  {
    var file := stem + ".jpg";
    assert file[|file| - 4..] == ".jpg";
    var low := Lower(file);
    assert low[|file| - 4..] == ".jpg";
    assert EndsWith(low, ListingFormats[0]);
    assert '/' !in file by {
      forall i | 0 <= i < |file| ensures file[i] != '/' {
        if i < |stem| { assert file[i] == stem[i]; }
      }
    }
    var j :| 0 <= j < |stem| && stem[j] != '.';
    assert file[j] == stem[j];
    assert file[..|file| - 4] == stem;
    StemOfListedImage(file, ".jpg");
  }

  /** A face registered as `<clean>.jpg` is one the verification scan
      considers, whenever `.jpg` is among the supported formats. */
  lemma RegisteredFileIsScanned(cfg: Settings, name: string)
    requires ".jpg" in cfg.formats
    ensures Supported(cfg, Normalise(name) + ".jpg")
  {
    var file := Normalise(name) + ".jpg";
    assert file[|file| - 4..] == ".jpg";
    JpgFileIsSupported(cfg, file);
  }

  lemma JpgFileIsSupported(cfg: Settings, file: string)
    requires ".jpg" in cfg.formats
    requires |file| >= 4 && file[|file| - 4..] == ".jpg"
    ensures Supported(cfg, file)
  {
    var low := Lower(file);
    assert low[|file| - 4..] == ".jpg";
    var k :| 0 <= k < |cfg.formats| && cfg.formats[k] == ".jpg";
    assert EndsWith(low, cfg.formats[k]);
  }

  // ---------------------------------------------------------------------------
  // The service state and its handlers

  /**
    The state the handlers work on: the gallery directory (whether it exists,
    and its entries in `os.listdir` order), the audit log and the upload
    endpoint's temporary file. The ghost fields count camera captures and
    saved uploads and record every entry handed to the comparison oracle.
   */
  class Server {
    const settings: Settings
    var dirExists: bool
    var entries: seq<string>
    var log: seq<AuditRecord>
    var tempExists: bool
    ghost var captures: nat
    ghost var uploadsSaved: nat
    ghost var oracleCalls: seq<string>

    /** A missing directory has no entries, and no temporary upload survives a request. */
    ghost predicate Valid()
      reads this
    {
      (dirExists || entries == []) && !tempExists
    }

    constructor (settings: Settings, dirExists: bool, entries: seq<string>)
      requires dirExists || entries == []
      ensures Valid()
      ensures this.settings == settings && this.dirExists == dirExists && this.entries == entries
      ensures log == [] && captures == 0 && uploadsSaved == 0 && oracleCalls == []
    {
      this.settings := settings;
      this.dirExists := dirExists;
      this.entries := entries;
      log := [];
      tempExists := false;
      captures := 0;
      uploadsSaved := 0;
      oracleCalls := [];
    }

    /** The guard of both verification endpoints: the directory exists and
        lists at least one entry, of any kind. */
    predicate HasEntries()
      reads this
    {
      dirExists && |entries| > 0
    }

    /** `POST /api/verify`. */
    method Verify(capture: Capture, isLive: string -> bool, compare: (string, string) -> Comparison)
      returns (reply: Reply<VerifyResult>)
      requires Valid()
      modifies this
      ensures Valid()
      ensures dirExists == old(dirExists) && entries == old(entries) && uploadsSaved == old(uploadsSaved)
      ensures !old(HasEntries()) ==>
        && reply == HttpError(400, NoFacesMessage)
        && captures == old(captures) && log == old(log) && oracleCalls == old(oracleCalls)
      ensures old(HasEntries()) ==> captures == old(captures) + 1
      ensures old(HasEntries()) && capture.CaptureNotFound? ==>
        reply == HttpError(500, FilesMissingMessage) && log == old(log) && oracleCalls == old(oracleCalls)
      ensures old(HasEntries()) && capture.CaptureError? ==>
        reply == Ok(Refused) && log == old(log) && oracleCalls == old(oracleCalls)
      ensures old(HasEntries()) && capture.Captured? && !isLive(capture.path) ==>
        reply == Ok(Refused) && log == old(log) && oracleCalls == old(oracleCalls)
      ensures old(HasEntries()) && capture.Captured? && isLive(capture.path) ==>
        var r := Scan(settings, compare, capture.path, entries);
        && reply == Ok(r)
        && log == old(log) + [AuditRecord(r.matchedWith, r.verified, r.score)]
        && oracleCalls == old(oracleCalls) + ScanCalls(settings, compare, capture.path, entries)
    {
      if !(dirExists && |entries| > 0) {
        reply := HttpError(400, NoFacesMessage);
        return;
      }
      captures := captures + 1;
      match capture
      case CaptureNotFound =>
        reply := HttpError(500, FilesMissingMessage);
      case CaptureError =>
        reply := Ok(Refused);
      case Captured(path) =>
        if !isLive(path) {
          reply := Ok(Refused);
          return;
        }
        var result, calls := VerifyFace(settings, compare, path, entries);
        oracleCalls := oracleCalls + calls;
        log := log + [AuditRecord(result.matchedWith, result.verified, result.score)];
        reply := Ok(result);
    }

    /** `POST /api/register`: the new image is stored as `<clean>.jpg`, where
        `clean` is the normalised name. `copied` is the outcome of copying the
        capture into the gallery: false when the copy raises even though the
        directory exists, e.g. for a file name too long for the filesystem. */
    method RegisterFace(name: string, capture: Capture, isLive: string -> bool, copied: bool)
      returns (reply: Reply<RegisterResponse>)
      requires Valid()
      modifies this
      ensures Valid()
      ensures dirExists == old(dirExists) && log == old(log)
      ensures oracleCalls == old(oracleCalls) && uploadsSaved == old(uploadsSaved)
      ensures Strip(name) == [] ==>
        reply == HttpError(400, EmptyNameMessage) && entries == old(entries) && captures == old(captures)
      ensures Strip(name) != [] && old(dirExists) && Normalise(name) + ".jpg" in old(entries) ==>
        && reply == HttpError(400, AlreadyRegisteredPrefix + name)
        && entries == old(entries) && captures == old(captures)
      ensures Strip(name) != [] && !(old(dirExists) && Normalise(name) + ".jpg" in old(entries)) ==>
        captures == old(captures) + 1
      ensures Strip(name) != [] && !(old(dirExists) && Normalise(name) + ".jpg" in old(entries)) ==>
        if !capture.Captured? then
          reply == HttpError(500, RegistrationFailedMessage) && entries == old(entries)
        else if !isLive(capture.path) then
          reply == HttpError(400, SpoofRegistrationMessage) && entries == old(entries)
        else if !old(dirExists) || !copied then
          reply == HttpError(500, RegistrationFailedMessage) && entries == old(entries)
        else
          && reply == Ok(RegisterResponse(true, RegisteredPrefix + name, Some(name)))
          && Normalise(name) + ".jpg" !in old(entries)
          && entries == old(entries) + [Normalise(name) + ".jpg"]
    {
      if Strip(name) == [] {
        reply := HttpError(400, EmptyNameMessage);
        return;
      }
      var clean := Normalise(name);
      var registered := clean + ".jpg";
      if dirExists && registered in entries {
        reply := HttpError(400, AlreadyRegisteredPrefix + name);
        return;
      }
      captures := captures + 1;
      if !capture.Captured? {
        reply := HttpError(500, RegistrationFailedMessage);
        return;
      }
      if !isLive(capture.path) {
        reply := HttpError(400, SpoofRegistrationMessage);
        return;
      }
      if !dirExists || !copied {
        // the copy raises, and the generic handler answers 500
        reply := HttpError(500, RegistrationFailedMessage);
        return;
      }
      entries := entries + [registered];
      reply := Ok(RegisterResponse(true, RegisteredPrefix + name, Some(name)));
    }

    /** `GET /api/registered`: the image entries, in directory order, with
        their display names and their count. */
    method ListRegisteredFaces() returns (response: ListResponse)
      ensures !dirExists ==> response == ListResponse([], None)
      ensures dirExists ==>
        response == ListResponse(ListedFaces(entries), Some(|ListedFaces(entries)|))
    {
      if !dirExists {
        return ListResponse([], None);
      }
      var faces: seq<FaceEntry> := [];
      var i := 0;
      while i < |entries|
        invariant i <= |entries|
        invariant faces == ListedFaces(entries[..i])
      {
        var filename := entries[i];
        assert entries[..i + 1] == entries[..i] + [filename];
        ListedFacesAppend(entries[..i], [filename]);
        if EndsWithAny(Lower(filename), [".jpg", ".jpeg", ".png"]) {
          var name := ReplaceChar(SplitExtStem(filename), '_', ' ');
          faces := faces + [FaceEntry(name, filename)];
        }
        i := i + 1;
      }
      assert entries[..i] == entries;
      response := ListResponse(faces, Some(|faces|));
    }

    /** `POST /verify-face`: an uploaded photo is saved to a temporary file,
        checked and matched; the temporary file is gone on every exit. */
    method VerifyFaceFromPhoto(contentType: Option<string>, tempPath: string,
                               isLive: string -> bool, compare: (string, string) -> Comparison)
      returns (reply: Reply<ClientVerifyResponse>)
      requires Valid()
      modifies this
      ensures Valid()
      ensures dirExists == old(dirExists) && entries == old(entries) && captures == old(captures)
      ensures contentType.None? ==>
        && reply == HttpError(500, VerificationFailedMessage)
        && uploadsSaved == old(uploadsSaved) && log == old(log) && oracleCalls == old(oracleCalls)
      ensures contentType.Some? && !StartsWith(contentType.value, "image/") ==>
        && reply == HttpError(400, NotImageMessage)
        && uploadsSaved == old(uploadsSaved) && log == old(log) && oracleCalls == old(oracleCalls)
      ensures contentType.Some? && StartsWith(contentType.value, "image/") && !old(HasEntries()) ==>
        && reply == HttpError(400, NoEmployeesMessage)
        && uploadsSaved == old(uploadsSaved) && log == old(log) && oracleCalls == old(oracleCalls)
      ensures contentType.Some? && StartsWith(contentType.value, "image/") && old(HasEntries()) ==>
        uploadsSaved == old(uploadsSaved) + 1
      ensures contentType.Some? && StartsWith(contentType.value, "image/") && old(HasEntries()) && !isLive(tempPath) ==>
        reply == Ok(ClientVerifyResponse(false, 0.0)) && log == old(log) && oracleCalls == old(oracleCalls)
      ensures contentType.Some? && StartsWith(contentType.value, "image/") && old(HasEntries()) && isLive(tempPath) ==>
        var r := Scan(settings, compare, tempPath, entries);
        && oracleCalls == old(oracleCalls) + ScanCalls(settings, compare, tempPath, entries)
        && (r.verified ==>
              && reply == Ok(ClientVerifyResponse(true, Confidence(r.score.value)))
              && log == old(log) + [AuditRecord(r.matchedWith, true, r.score)])
        && (!r.verified ==>
              && reply == Ok(ClientVerifyResponse(false, 0.0))
              && log == old(log) + [AuditRecord(None, false, None)])
    {
      if contentType.None? {
        // `None.startswith` raises, and the generic handler answers 500
        reply := HttpError(500, VerificationFailedMessage);
        return;
      }
      if !StartsWith(contentType.value, "image/") {
        reply := HttpError(400, NotImageMessage);
        return;
      }
      if !(dirExists && |entries| > 0) {
        reply := HttpError(400, NoEmployeesMessage);
        return;
      }
      tempExists := true;
      uploadsSaved := uploadsSaved + 1;
      if !isLive(tempPath) {
        reply := Ok(ClientVerifyResponse(false, 0.0));
      } else {
        var result, calls := VerifyFace(settings, compare, tempPath, entries);
        oracleCalls := oracleCalls + calls;
        if result.verified {
          var confidence := Confidence(result.score.value);
          log := log + [AuditRecord(result.matchedWith, true, result.score)];
          reply := Ok(ClientVerifyResponse(true, confidence));
        } else {
          log := log + [AuditRecord(None, false, None)];
          reply := Ok(ClientVerifyResponse(false, 0.0));
        }
      }
      // the `finally` clause deletes the temporary file
      tempExists := false;
    }
  }

  /** Registering the same name twice: once the first call has stored the
      image, the second is rejected as a duplicate without using the camera. */
  method RegisterTwice(server: Server, name: string, first: Capture, second: Capture, isLive: string -> bool,
                       copied: bool)
    returns (r1: Reply<RegisterResponse>, r2: Reply<RegisterResponse>)
    requires server.Valid()
    modifies server
    ensures server.Valid()
    ensures r1.Ok? ==> r2 == HttpError(400, AlreadyRegisteredPrefix + name)
    ensures r1.Ok? ==> server.captures == old(server.captures) + 1
    ensures r1.Ok? ==> server.entries == old(server.entries) + [Normalise(name) + ".jpg"]
  {
    r1 := server.RegisterFace(name, first, isLive, copied);
    r2 := server.RegisterFace(name, second, isLive, copied);
  }

  /** A gallery holding only `alice.jpg`, matched at distance 0.25: the scan
      reports alice with score 0.25, and the upload endpoint's confidence is 75. */
  lemma AliceScenario()
    ensures var cfg := Settings([".jpg", ".jpeg", ".png"], 0.4);
            var compare := (input: string, entry: string) => Compared(true, 0.25);
            Scan(cfg, compare, "upload.jpg", ["alice.jpg"]) == VerifyResult(true, Some("alice.jpg"), Some(0.25))
    ensures Confidence(0.25) == 75.0
  {
    var cfg := Settings([".jpg", ".jpeg", ".png"], 0.4);
    var compare := (input: string, entry: string) => Compared(true, 0.25);
    assert EndsWith(Lower("alice.jpg"), ".jpg");
    ScanReturnsFirstHit(cfg, compare, "upload.jpg", ["alice.jpg"], 0);
  }

  /** A gallery holding only a placeholder file: the scan reports no match. */
  lemma PlaceholderOnlyGallery(cfg: Settings, compare: (string, string) -> Comparison, input: string)
    requires !Supported(cfg, ".gitkeep")
    ensures Scan(cfg, compare, input, [".gitkeep"]) == NoMatch
  {
    NoMatchIffNoHit(cfg, compare, input, [".gitkeep"]);
  }

  /** A gallery directory holding only a placeholder passes the guard of
      `POST /api/verify`: a live capture is scanned, the reply is the no-match
      result rather than 400, and that result is logged. */
  method VerifyPlaceholderGallery(server: Server, path: string, isLive: string -> bool,
                                  compare: (string, string) -> Comparison)
    returns (reply: Reply<VerifyResult>)
    requires server.Valid() && server.dirExists && server.entries == [".gitkeep"]
    requires !Supported(server.settings, ".gitkeep") && isLive(path)
    modifies server
    ensures server.Valid()
    ensures reply == Ok(NoMatch)
    ensures server.log == old(server.log) + [AuditRecord(None, false, None)]
    ensures server.captures == old(server.captures) + 1
    ensures server.oracleCalls == old(server.oracleCalls)
  {
    PlaceholderOnlyGallery(server.settings, compare, path);
    reply := server.Verify(Captured(path), isLive, compare);
  }
}
