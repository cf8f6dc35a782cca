/** Admission of verified evidence against pinned images. */
module Images {
  import opened Octets
  import opened HashChain
  import JournalText
  import opened TeeTypes
  import opened Binding

  /** One image's identity. acceptExtension judges the runtime extensions the
      quote proves on top of an anchor or a launch file digest. */
  datatype ImagePin = ImagePin(
    name: Bytes,
    digest: Bytes,
    registers: map<int, Bytes>,
    anchor: Option<Bytes>,
    launchFile: Option<Bytes>,
    launchFileDigest: Option<Bytes>,
    acceptExtension: Option<Bytes -> bool>)

  datatype PolicyError =
    | MeasurementNotAllowed
    | InvalidLaunchDigest
    | RegistersNotAllowed
    | AnchorNotAllowed
    | LaunchFileNotAllowed
    | PlatformMismatch
    | PcrNotAllowed

  datatype Verdict = Accepted | Refused(why: PolicyError)

  predicate VerifiedPlatform(r: VerificationResult, platform: Platform) {
    r.platform.Unnamed? || r.platform == platform
  }

  function LaunchDigest(r: VerificationResult): (d: Result<Bytes, PolicyError>) {
    if TrimSpace(r.claims.launchDigest) == [] then Err(MeasurementNotAllowed)
    else match r.claims.LaunchMeasurement()
      case Ok(d) => Ok(d)
      case Err(_) => Err(InvalidLaunchDigest)
  }

  /** The claimed measurement is read trimmed and in either case, as exactly the
      hex of 48 bytes; blank is a policy miss, anything else malformed. */
  lemma LaunchDigestExact(r: VerificationResult, d: Bytes)
    ensures LaunchDigest(r) == Ok(d) <==> |d| == 48 && ToLower(TrimSpace(r.claims.launchDigest)) == HexEncode(d)
    ensures LaunchDigest(r) == Err(MeasurementNotAllowed) <==> TrimSpace(r.claims.launchDigest) == []
  {
    ParseDigestExact(ToLower(TrimSpace(r.claims.launchDigest)), 48, d);
  }

  // ------------------------------------------------------------ what matches

  /** A pin that can mean what it says, on the verified family. */
  predicate WellFormed(h: Hashes, family: Family, img: ImagePin) {
    && !(img.anchor.Some? && img.launchFile.Some?)
    && !(img.anchor.Some? && img.launchFileDigest.Some?)
    && !(img.launchFile.Some? && img.launchFileDigest.Some?)
    && (img.launchFile.Some? ==> img.launchFile.value != [] && img.acceptExtension.None?)
    && (img.launchFileDigest.Some? ==> CheckLaunchFileDigest(h, family, img.launchFileDigest.value).None?)
  }

  predicate RegistersMatch(r: VerificationResult, platform: Platform, registers: map<int, Bytes>) {
    |registers| == 0 || (platform.HasRegisters() && r.claims.CheckRtmrs(registers))
  }

  /** The quote proves bound plus a first part of claimed, and the pin accepts
      each extension in that part. What follows it is not judged. */
  ghost predicate ReplayAccepted(h: Hashes, r: VerificationResult, bound: Bound, claimed: seq<Bytes>,
                                 accept: Option<Bytes -> bool>) {
    exists k :: ProvesLeast(h, r, bound, claimed, k) && Judged(claimed, k, accept)
  }

  ghost predicate Judged(claimed: seq<Bytes>, k: nat, accept: Option<Bytes -> bool>)
    requires k <= |claimed|
  {
    k > 0 ==> accept.Some? && forall i :: 0 <= i < k ==> accept.value(claimed[i])
  }

  ghost predicate LaunchMatches(h: Hashes, r: VerificationResult, img: ImagePin, claimed: seq<Bytes>) {
    && (img.anchor.Some? ==> ReplayAccepted(h, r, Anchor(img.anchor.value), claimed, img.acceptExtension))
    && (img.launchFile.Some? ==> VerifyBinding(h, r, img.launchFile.value, []).None?)
    && (img.launchFileDigest.Some? ==>
          ReplayAccepted(h, r, FileDigest(img.launchFileDigest.value), claimed, img.acceptExtension))
  }

  /** Digest, registers and launch binding, all of one pin. */
  ghost predicate PinMatches(h: Hashes, r: VerificationResult, platform: Platform, claimed: seq<Bytes>, img: ImagePin) {
    && LaunchDigest(r) == Ok(img.digest)
    && RegistersMatch(r, platform, img.registers)
    && LaunchMatches(h, r, img, claimed)
  }

  ghost predicate Admits(h: Hashes, r: VerificationResult, images: seq<ImagePin>, platform: Platform,
                         claimed: seq<Bytes>) {
    images == [] ||
    (&& VerifiedPlatform(r, platform)
     && (forall img :: img in images ==> WellFormed(h, platform.Family(), img))
     && exists img :: img in images && PinMatches(h, r, platform, claimed, img))
  }

  /** Why the pin with the right digest still did not match. */
  ghost function NearMiss(h: Hashes, r: VerificationResult, platform: Platform, claimed: seq<Bytes>, img: ImagePin)
    : PolicyError {
    if !RegistersMatch(r, platform, img.registers) then RegistersNotAllowed
    else if img.anchor.Some? && !ReplayAccepted(h, r, Anchor(img.anchor.value), claimed, img.acceptExtension)
    then AnchorNotAllowed
    else LaunchFileNotAllowed
  }

  ghost function LastWithDigest(images: seq<ImagePin>, digest: Bytes): Option<ImagePin> {
    if images == [] then None
    else if images[|images| - 1].digest == digest then Some(images[|images| - 1])
    else LastWithDigest(images[..|images| - 1], digest)
  }

  ghost function Refusal(h: Hashes, r: VerificationResult, images: seq<ImagePin>, platform: Platform,
                         claimed: seq<Bytes>): PolicyError {
    if !VerifiedPlatform(r, platform) then PlatformMismatch
    else if exists img :: img in images && !WellFormed(h, platform.Family(), img) then LaunchFileNotAllowed
    else match LaunchDigest(r)
      case Err(e) => e
      case Ok(digest) =>
        match LastWithDigest(images, digest)
        case None => MeasurementNotAllowed
        case Some(img) => NearMiss(h, r, platform, claimed, img)
  }

  // ------------------------------------------------------------- enforcement

  method CheckLaunchBindingPins(h: Hashes, images: seq<ImagePin>, family: Family) returns (ok: bool)
    ensures ok <==> forall img :: img in images ==> WellFormed(h, family, img)
  {
    for i := 0 to |images|
      invariant forall j :: 0 <= j < i ==> WellFormed(h, family, images[j])
    {
      var img := images[i];
      assert img in images;
      var bindings := 0;
      if img.anchor.Some? { bindings := bindings + 1; }
      if img.launchFile.Some? { bindings := bindings + 1; }
      if img.launchFileDigest.Some? { bindings := bindings + 1; }
      if bindings > 1 {
        return false;
      }
      if img.launchFile.Some? && (img.launchFile.value == [] || img.acceptExtension.Some?) {
        return false;
      }
      if img.launchFileDigest.Some? && CheckLaunchFileDigest(h, family, img.launchFileDigest.value).Some? {
        return false;
      }
    }
    return true;
  }

  lemma LeastUnique(h: Hashes, r: VerificationResult, bound: Bound, claimed: seq<Bytes>, j: nat, k: nat)
    requires ProvesLeast(h, r, bound, claimed, j) && ProvesLeast(h, r, bound, claimed, k)
    ensures j == k
  {
  }

  /** The least proven prefix is the only one judged. */
  lemma LeastDecides(h: Hashes, r: VerificationResult, bound: Bound, claimed: seq<Bytes>, k: nat,
                     accept: Option<Bytes -> bool>)
    requires ProvesLeast(h, r, bound, claimed, k)
    ensures ReplayAccepted(h, r, bound, claimed, accept) <==> Judged(claimed, k, accept)
  {
    if ReplayAccepted(h, r, bound, claimed, accept) {
      var j :| ProvesLeast(h, r, bound, claimed, j) && Judged(claimed, j, accept);
      LeastUnique(h, r, bound, claimed, j, k);
    }
  }

  method JudgePrefix(claimed: seq<Bytes>, k: nat, accept: Option<Bytes -> bool>) returns (ok: bool)
    requires k <= |claimed|
    ensures ok <==> Judged(claimed, k, accept)
  {
    if k > 0 && accept.None? {
      return false;
    }
    for i := 0 to k
      invariant forall j :: 0 <= j < i ==> accept.value(claimed[j])
    {
      if !accept.value(claimed[i]) {
        return false;
      }
    }
    return true;
  }

  method EnforceReplayedBinding(h: Hashes, r: VerificationResult, bound: Bound, claimed: seq<Bytes>,
                                accept: Option<Bytes -> bool>)
    returns (ok: bool)
    ensures ok <==> ReplayAccepted(h, r, bound, claimed, accept)
  {
    var m := MatchBindingPrefix(h, r, bound, claimed);
    if m.Err? {
      return false;
    }
    LeastDecides(h, r, bound, claimed, m.value, accept);
    ok := JudgePrefix(claimed, m.value, accept);
  }

  /** One pin whose digest is the reported one, in the loop of EnforceImages. */
  method EnforcePin(h: Hashes, r: VerificationResult, img: ImagePin, platform: Platform, claimed: seq<Bytes>)
    returns (miss: Option<PolicyError>)
    requires LaunchDigest(r) == Ok(img.digest)
    ensures miss.None? <==> PinMatches(h, r, platform, claimed, img)
    ensures miss.Some? ==> miss.value == NearMiss(h, r, platform, claimed, img)
  {
    if !RegistersMatch(r, platform, img.registers) {
      return Some(RegistersNotAllowed);
    }
    if img.anchor.Some? {
      var ok := EnforceReplayedBinding(h, r, Anchor(img.anchor.value), claimed, img.acceptExtension);
      if !ok {
        return Some(AnchorNotAllowed);
      }
    }
    if img.launchFile.Some? && VerifyBinding(h, r, img.launchFile.value, []).Some? {
      return Some(LaunchFileNotAllowed);
    }
    if img.launchFileDigest.Some? {
      var ok := EnforceReplayedBinding(h, r, FileDigest(img.launchFileDigest.value), claimed, img.acceptExtension);
      if !ok {
        return Some(LaunchFileNotAllowed);
      }
    }
    return None;
  }

  /** EnforceImagesWithRuntimeLog. */
  method EnforceImages(h: Hashes, r: VerificationResult, images: seq<ImagePin>, platform: Platform, claimed: seq<Bytes>)
    returns (v: Verdict)
    ensures v.Accepted? <==> Admits(h, r, images, platform, claimed)
    ensures v.Refused? ==> v.why == Refusal(h, r, images, platform, claimed)
  {
    if images == [] {
      return Accepted;
    }
    if !VerifiedPlatform(r, platform) {
      return Refused(PlatformMismatch);
    }
    var wellFormed := CheckLaunchBindingPins(h, images, platform.Family());
    if !wellFormed {
      return Refused(LaunchFileNotAllowed);
    }
    var digest := LaunchDigest(r);
    if digest.Err? {
      return Refused(digest.error);
    }
    v := EnforceAny(h, r, images, digest.value, platform, claimed);
  }

  /** Its loop: some pin matches whole, or the last near miss is the answer. */
  method EnforceAny(h: Hashes, r: VerificationResult, images: seq<ImagePin>, digest: Bytes, platform: Platform,
                    claimed: seq<Bytes>)
    returns (v: Verdict)
    requires LaunchDigest(r) == Ok(digest)
    ensures v.Accepted? <==> exists img :: img in images && PinMatches(h, r, platform, claimed, img)
    ensures v.Refused? ==> v.why == match LastWithDigest(images, digest)
                                    case None => MeasurementNotAllowed
                                    case Some(img) => NearMiss(h, r, platform, claimed, img)
  {
    var last: Option<PolicyError> := None;
    for i := 0 to |images|
      invariant forall j :: 0 <= j < i ==> !PinMatches(h, r, platform, claimed, images[j])
      invariant match LastWithDigest(images[..i], digest)
                case None => last == None
                case Some(img) => last == Some(NearMiss(h, r, platform, claimed, img))
    {
      assert images[..i + 1][..i] == images[..i];
      if digest == images[i].digest {
        last := EnforcePin(h, r, images[i], platform, claimed);
        if last.None? {
          return Accepted;
        }
      }
    }
    assert images[..|images|] == images;
    return Refused(if last.Some? then last.value else MeasurementNotAllowed);
  }

  // -------------------------------------------------------------- consequences

  /** Neither the order of the pins nor repeating one changes the answer. */
  lemma PinOrderIrrelevant(h: Hashes, r: VerificationResult, a: seq<ImagePin>, b: seq<ImagePin>, platform: Platform,
                           claimed: seq<Bytes>)
    requires forall img :: img in a <==> img in b
    ensures Admits(h, r, a, platform, claimed) <==> Admits(h, r, b, platform, claimed)
  {
    assert a == [] <==> b == [] by {
      if a != [] { assert a[0] in b; }
      if b != [] { assert b[0] in a; }
    }
  }

  /** Entries past the proven prefix are never judged: cutting them off, or
      replacing them with any canonical digests, changes nothing. */
  lemma OnlyProvenPrefixJudged(h: Hashes, r: VerificationResult, bound: Bound, c1: seq<Bytes>, c2: seq<Bytes>, k: nat,
                               accept: Option<Bytes -> bool>)
    requires ProvesLeast(h, r, bound, c1, k) && k <= |c2| && c1[..k] == c2[..k]
    requires JournalText.AllCanonical(c2)
    ensures ReplayAccepted(h, r, bound, c1, accept) <==> ReplayAccepted(h, r, bound, c2, accept)
  {
    forall j | 0 <= j <= k ensures Proves(h, r, bound, c1, j) <==> Proves(h, r, bound, c2, j) {
      assert c1[..j] == c1[..k][..j] == c2[..j];
    }
    assert ProvesLeast(h, r, bound, c2, k);
    assert forall i :: 0 <= i < k ==> c1[i] == c1[..k][i] == c2[i];
    LeastDecides(h, r, bound, c1, k, accept);
    LeastDecides(h, r, bound, c2, k, accept);
  }
}
