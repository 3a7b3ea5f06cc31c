/**
  The matching policy of `face_engine.verify_face`: a linear scan of the gallery
  listing, in directory order, that skips non-image entries, asks the face
  comparison oracle about every other entry, swallows the oracle's errors and
  stops at the first entry the oracle accepts below the distance threshold.
 */
module FaceEngine {
  import opened Wrappers
  import opened PyText

  /** What one call of the comparison oracle (DeepFace's pairwise verify, with
      relaxed detection) yields: an exception, or its verdict and distance. */
  datatype Comparison = OracleError | Compared(verified: bool, distance: real)

  /** The configuration the scan reads: the allow-list of image suffixes
      (compared against the lower-cased file name) and the distance threshold. */
  datatype Settings = Settings(formats: seq<string>, threshold: real)

  /** The dictionary `verify_face` returns, which `/api/verify` sends back as it is. */
  datatype VerifyResult = VerifyResult(verified: bool, matchedWith: Option<string>, score: Option<real>)

  const NoMatch := VerifyResult(false, None, None)

  /** The entry's lower-cased name ends in one of the supported suffixes. */
  predicate Supported(cfg: Settings, entry: string) {
    EndsWithAny(Lower(entry), cfg.formats)
  }

  /** The acceptance test applied to one oracle answer. */
  predicate Accepts(cfg: Settings, c: Comparison) {
    c.Compared? && c.verified && c.distance < cfg.threshold
  }

  /** A gallery entry that the scan would return if it reached it. */
  predicate Hit(cfg: Settings, compare: (string, string) -> Comparison, input: string, entry: string) {
    Supported(cfg, entry) && Accepts(cfg, compare(input, entry))
  }

  /** The result of scanning `listing` for the capture `input`. */
  function Scan(cfg: Settings, compare: (string, string) -> Comparison, input: string, listing: seq<string>): (r: VerifyResult)
    ensures r.verified <==> r.matchedWith.Some? && r.score.Some?
    ensures !r.verified ==> r == NoMatch
    ensures r.verified ==>
      && r.matchedWith.value in listing
      && Hit(cfg, compare, input, r.matchedWith.value)
      && r.score == Some(compare(input, r.matchedWith.value).distance)
      && r.score.value < cfg.threshold
  {
    if listing == [] then NoMatch
    else if Hit(cfg, compare, input, listing[0]) then
      VerifyResult(true, Some(listing[0]), Some(compare(input, listing[0]).distance))
    else Scan(cfg, compare, input, listing[1..])
  }

  /** The entries the scan hands to the oracle, in the order it does so. */
  ghost function ScanCalls(cfg: Settings, compare: (string, string) -> Comparison, input: string, listing: seq<string>): (calls: seq<string>)
    ensures forall c :: c in calls ==> c in listing && Supported(cfg, c)
  {
    if listing == [] then []
    else if !Supported(cfg, listing[0]) then ScanCalls(cfg, compare, input, listing[1..])
    else if Accepts(cfg, compare(input, listing[0])) then [listing[0]]
    else [listing[0]] + ScanCalls(cfg, compare, input, listing[1..])
  }

  /** The supported entries of a listing, in listing order. */
  ghost function SupportedEntries(cfg: Settings, listing: seq<string>): (s: seq<string>)
    ensures forall e :: e in s <==> e in listing && Supported(cfg, e)
  {
    if listing == [] then []
    else if Supported(cfg, listing[0]) then [listing[0]] + SupportedEntries(cfg, listing[1..])
    else SupportedEntries(cfg, listing[1..])
  }

  /** `verify_face(input_path)` over the directory listing `listing`: a loop that
      returns on the first hit. `calls` records what was passed to the oracle. */
  method VerifyFace(cfg: Settings, compare: (string, string) -> Comparison, input: string, listing: seq<string>)
    returns (r: VerifyResult, ghost calls: seq<string>)
    ensures r == Scan(cfg, compare, input, listing)
    ensures calls == ScanCalls(cfg, compare, input, listing)
  {
    calls := [];
    var i := 0;
    while i < |listing|
      invariant i <= |listing|
      invariant Scan(cfg, compare, input, listing[i..]) == Scan(cfg, compare, input, listing)
      invariant calls + ScanCalls(cfg, compare, input, listing[i..]) == ScanCalls(cfg, compare, input, listing)
    {
      var person := listing[i];
      assert listing[i..][1..] == listing[i + 1..];
      if !EndsWithAny(Lower(person), cfg.formats) {
        i := i + 1;
        continue;
      }
      calls := calls + [person];
      var result := compare(input, person);
      if result.Compared? && result.verified && result.distance < cfg.threshold {
        r := VerifyResult(true, Some(person), Some(result.distance));
        return;
      }
      assert calls + ScanCalls(cfg, compare, input, listing[i + 1..]) == ScanCalls(cfg, compare, input, listing);
      i := i + 1;
    }
    r := NoMatch;
  }

  /** First match wins: the scan returns the first hit in listing order, with the
      oracle's distance for it as the score, whatever later entries would score. */
  lemma {:induction false} ScanReturnsFirstHit(cfg: Settings, compare: (string, string) -> Comparison, input: string, listing: seq<string>, k: nat)
    requires k < |listing| && Hit(cfg, compare, input, listing[k])
    requires forall j :: 0 <= j < k ==> !Hit(cfg, compare, input, listing[j])
    ensures Scan(cfg, compare, input, listing) == VerifyResult(true, Some(listing[k]), Some(compare(input, listing[k]).distance))
  {
    if k > 0 {
      assert !Hit(cfg, compare, input, listing[0]);
      forall j | 0 <= j < k - 1 ensures !Hit(cfg, compare, input, listing[1..][j]) {
        assert listing[1..][j] == listing[j + 1];
      }
      ScanReturnsFirstHit(cfg, compare, input, listing[1..], k - 1);
    }
  }

  /** Conversely, a match is always the first hit: every entry before it was
      unsupported, made the oracle fail, or was rejected by the oracle or threshold. */
  lemma {:induction false} MatchIsFirstHit(cfg: Settings, compare: (string, string) -> Comparison, input: string, listing: seq<string>)
    requires Scan(cfg, compare, input, listing).verified
    ensures exists k :: 0 <= k < |listing| && listing[k] == Scan(cfg, compare, input, listing).matchedWith.value
                        && (forall j :: 0 <= j < k ==> !Hit(cfg, compare, input, listing[j]))
  {
    var r := Scan(cfg, compare, input, listing);
    if Hit(cfg, compare, input, listing[0]) {
      assert listing[0] == r.matchedWith.value;
    } else {
      var tail := listing[1..];
      MatchIsFirstHit(cfg, compare, input, tail);
      var k :| 0 <= k < |tail| && tail[k] == r.matchedWith.value
        && forall j :: 0 <= j < k ==> !Hit(cfg, compare, input, tail[j]);
      assert listing[k + 1] == r.matchedWith.value;
      forall j | 0 <= j < k + 1 ensures !Hit(cfg, compare, input, listing[j]) {
        if j > 0 { assert listing[j] == tail[j - 1]; }
      }
    }
  }

  /** The scan reports no match, exactly `{verified: False, matched_with: None,
      score: None}`, if and only if no entry of the listing is a hit (in
      particular on an empty listing or one without images). */
  lemma {:induction false} NoMatchIffNoHit(cfg: Settings, compare: (string, string) -> Comparison, input: string, listing: seq<string>)
    ensures Scan(cfg, compare, input, listing) == NoMatch
        <==> forall j :: 0 <= j < |listing| ==> !Hit(cfg, compare, input, listing[j])
  {
    if listing != [] {
      NoMatchIffNoHit(cfg, compare, input, listing[1..]);
      assert forall j :: 1 <= j < |listing| ==> listing[j] == listing[1..][j - 1];
    }
  }

  /** An entry that is not a hit (no image suffix, an oracle error, a rejection)
      can be removed from the listing without changing the result. */
  lemma {:induction false} ScanSkipsNonHit(cfg: Settings, compare: (string, string) -> Comparison, input: string, before: seq<string>, e: string, after: seq<string>)
    requires !Hit(cfg, compare, input, e)
    ensures Scan(cfg, compare, input, before + [e] + after) == Scan(cfg, compare, input, before + after)
  {
    if before == [] {
      assert before + [e] + after == [e] + after;
      assert before + after == after;
      assert ([e] + after)[1..] == after;
    } else {
      ScanSkipsNonHit(cfg, compare, input, before[1..], e, after);
      assert (before + [e] + after)[1..] == before[1..] + [e] + after;
      assert (before + after)[1..] == before[1..] + after;
    }
  }

  /** An oracle error on one entry does not abort the scan: the result is the
      one the scan gives without that entry, so a later hit is still returned. */
  lemma OracleErrorIsSkipped(cfg: Settings, compare: (string, string) -> Comparison, input: string, before: seq<string>, e: string, after: seq<string>)
    requires compare(input, e).OracleError?
    ensures Scan(cfg, compare, input, before + [e] + after) == Scan(cfg, compare, input, before + after)
  {
    ScanSkipsNonHit(cfg, compare, input, before, e, after);
  }

  /** With no hit, the oracle is consulted once for every supported entry, in
      listing order; unsupported entries are never passed to it. */
  lemma {:induction false} CallsWithoutHit(cfg: Settings, compare: (string, string) -> Comparison, input: string, listing: seq<string>)
    requires forall j :: 0 <= j < |listing| ==> !Hit(cfg, compare, input, listing[j])
    ensures ScanCalls(cfg, compare, input, listing) == SupportedEntries(cfg, listing)
  {
    if listing != [] {
      assert !Hit(cfg, compare, input, listing[0]);
      assert forall j :: 0 <= j < |listing| - 1 ==> listing[1..][j] == listing[j + 1];
      CallsWithoutHit(cfg, compare, input, listing[1..]);
    }
  }

  /** With a first hit at index k, the oracle is consulted exactly on the
      supported entries up to and including entry k, and on nothing after it. */
  lemma {:induction false} CallsUpToFirstHit(cfg: Settings, compare: (string, string) -> Comparison, input: string, listing: seq<string>, k: nat)
    requires k < |listing| && Hit(cfg, compare, input, listing[k])
    requires forall j :: 0 <= j < k ==> !Hit(cfg, compare, input, listing[j])
    ensures ScanCalls(cfg, compare, input, listing) == SupportedEntries(cfg, listing[..k + 1])
  {
    var prefix := listing[..k + 1];
    assert prefix[0] == listing[0];
    if k == 0 {
      assert prefix[1..] == [];
      assert SupportedEntries(cfg, prefix) == [listing[0]];
    } else {
      var tail := listing[1..];
      assert !Hit(cfg, compare, input, listing[0]);
      forall j | 0 <= j < k - 1 ensures !Hit(cfg, compare, input, tail[j]) {
        assert tail[j] == listing[j + 1];
      }
      CallsUpToFirstHit(cfg, compare, input, tail, k - 1);
      assert prefix[1..] == tail[..k];
      var head := if Supported(cfg, listing[0]) then [listing[0]] else [];
      assert ScanCalls(cfg, compare, input, listing) == head + ScanCalls(cfg, compare, input, tail);
      assert SupportedEntries(cfg, prefix) == head + SupportedEntries(cfg, tail[..k]);
    }
  }

  /** The policy is first-found, not best-found: a later, closer entry loses to
      an earlier one that clears the threshold. */
  lemma FirstMatchNotBestMatch()
    ensures var cfg := Settings([".jpg"], 0.4);
            var compare := (input: string, entry: string) =>
              if entry == "alice.jpg" then Compared(true, 0.3) else Compared(true, 0.1);
            Scan(cfg, compare, "capture.jpg", ["alice.jpg", "bob.jpg"])
              == VerifyResult(true, Some("alice.jpg"), Some(0.3))
  {
    var cfg := Settings([".jpg"], 0.4);
    var compare := (input: string, entry: string) =>
      if entry == "alice.jpg" then Compared(true, 0.3) else Compared(true, 0.1);
    assert EndsWith(Lower("alice.jpg"), ".jpg");
    ScanReturnsFirstHit(cfg, compare, "capture.jpg", ["alice.jpg", "bob.jpg"], 0);
  }
}
