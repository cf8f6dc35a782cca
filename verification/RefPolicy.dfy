/** Policies, whole-image and flat, and the conversions between them. */
module RefPolicy {
  import opened Octets
  import opened HashChain
  import opened TeeTypes
  import opened Images
  import TpmClaims

  /** Images replaces measurements and registers when it is not empty. */
  datatype Policy = Policy(images: seq<ImagePin>, measurements: seq<Bytes>, registers: map<int, Bytes>,
                           pcrs: map<int, Bytes>)

  // ------------------------------------------------------------- enforcement

  function EnforceLaunchMeasurement(r: VerificationResult, allowed: seq<Bytes>): Option<PolicyError> {
    if r.claims.launchDigest == [] then
      if allowed != [] then Some(MeasurementNotAllowed) else None
    else match LaunchDigest(r)
      case Err(e) => Some(e)
      case Ok(d) => if allowed != [] && d !in allowed then Some(MeasurementNotAllowed) else None
  }

  /** The flat pins, judged apart from each other. */
  predicate FlatAdmits(r: VerificationResult, platform: Platform, measurements: seq<Bytes>,
                       registers: map<int, Bytes>)
  {
    EnforceLaunchMeasurement(r, measurements).None? && RegistersMatch(r, platform, registers)
  }

  /** Why flat pins refuse: the measurement is judged before the registers. */
  function FlatRefusal(r: VerificationResult, measurements: seq<Bytes>): PolicyError {
    match EnforceLaunchMeasurement(r, measurements) case Some(e) => e case None => RegistersNotAllowed
  }

  ghost predicate PolicyAdmits(h: Hashes, r: VerificationResult, policy: Policy, platform: Platform,
                               message: Option<Bytes>, claimed: seq<Bytes>) {
    && VerifiedPlatform(r, platform)
    && TpmClaims.EnforcePcrs(platform, message, r.claims, policy.pcrs)
    && if policy.images != [] then Admits(h, r, policy.images, platform, claimed)
       else FlatAdmits(r, platform, policy.measurements, policy.registers)
  }

  /** EnforcePinsWithRuntimeLog. */
  method EnforcePins(h: Hashes, r: VerificationResult, policy: Policy, platform: Platform,
                     message: Option<Bytes>, claimed: seq<Bytes>) returns (v: Verdict)
    ensures v.Accepted? <==> PolicyAdmits(h, r, policy, platform, message, claimed)
    ensures !VerifiedPlatform(r, platform) ==> v == Refused(PlatformMismatch)
    ensures VerifiedPlatform(r, platform) && !TpmClaims.EnforcePcrs(platform, message, r.claims, policy.pcrs) ==>
              v == Refused(PcrNotAllowed)
    ensures v.Refused? && VerifiedPlatform(r, platform)
            && TpmClaims.EnforcePcrs(platform, message, r.claims, policy.pcrs) ==>
              v.why == if policy.images != [] then Refusal(h, r, policy.images, platform, claimed)
                       else FlatRefusal(r, policy.measurements)
  {
    if !VerifiedPlatform(r, platform) {
      return Refused(PlatformMismatch);
    }
    if !TpmClaims.EnforcePcrs(platform, message, r.claims, policy.pcrs) {
      return Refused(PcrNotAllowed);
    }
    if policy.images != [] {
      v := EnforceImages(h, r, policy.images, platform, claimed);
      return;
    }
    var launch := EnforceLaunchMeasurement(r, policy.measurements);
    if launch.Some? {
      return Refused(launch.value);
    }
    if platform.HasRegisters() {
      return if |policy.registers| == 0 || r.claims.CheckRtmrs(policy.registers) then Accepted
          else Refused(RegistersNotAllowed);
    }
    return if |policy.registers| > 0 then Refused(RegistersNotAllowed) else Accepted;
  }

  // ------------------------------------------------------------ image to flat

  ghost predicate PinsBinding(img: ImagePin) {
    img.anchor.Some? || img.launchFile.Some? || img.launchFileDigest.Some?
  }

  ghost predicate SameRegisters(images: seq<ImagePin>) {
    forall i :: 0 <= i < |images| ==> images[i].registers == images[0].registers
  }

  method HasLaunchBindings(images: seq<ImagePin>) returns (has: bool)
    ensures has <==> exists i :: 0 <= i < |images| && PinsBinding(images[i])
  {
    for i := 0 to |images|
      invariant forall j :: 0 <= j < i ==> !PinsBinding(images[j])
    {
      if images[i].anchor.Some? || images[i].launchFile.Some? || images[i].launchFileDigest.Some? {
        assert PinsBinding(images[i]);
        return true;
      }
    }
    return false;
  }

  method CommonRegisters(images: seq<ImagePin>) returns (common: map<int, Bytes>, uniform: bool)
    ensures uniform <==> SameRegisters(images)
    ensures common == if uniform && images != [] then images[0].registers else map[]
  {
    if images == [] {
      return map[], true;
    }
    for i := 1 to |images|
      invariant forall j :: 0 <= j < i ==> images[j].registers == images[0].registers
    {
      if images[i].registers != images[0].registers {
        return map[], false;
      }
    }
    return images[0].registers, true;
  }

  function Digests(images: seq<ImagePin>): (r: seq<Bytes>)
    ensures |r| == |images| && forall i :: 0 <= i < |r| ==> r[i] == images[i].digest
  {
    seq(|images|, i requires 0 <= i < |images| => images[i].digest)
  }

  function HexDigests(images: seq<ImagePin>): (r: seq<Bytes>)
    ensures |r| == |images| && forall i :: 0 <= i < |r| ==> r[i] == HexEncode(images[i].digest)
  {
    seq(|images|, i requires 0 <= i < |images| => HexEncode(images[i].digest))
  }

  /** Flatten. What it calls uniform loses nothing. */
  method Flatten(images: seq<ImagePin>) returns (digests: seq<Bytes>, rtmrs: map<int, Bytes>, uniform: bool)
    ensures digests == HexDigests(images)
    ensures rtmrs == if SameRegisters(images) && images != [] then images[0].registers else map[]
    ensures uniform <==> SameRegisters(images) && forall i :: 0 <= i < |images| ==> !PinsBinding(images[i])
  {
    var common, same := CommonRegisters(images);
    var bound := HasLaunchBindings(images);
    return HexDigests(images), common, same && !bound;
  }

  /** The flat digests a verifier parses back from what Flatten renders. */
  lemma FlattenedDigestsParse(images: seq<ImagePin>, i: nat)
    requires i < |images| && |images[i].digest| == 48
    ensures ParseDigest(HexDigests(images)[i], 48) == Ok(Digests(images)[i])
  {
    ParseDigestExact(HexDigests(images)[i], 48, images[i].digest);
  }

  lemma DigestListed(images: seq<ImagePin>, digest: Bytes)
    ensures digest in Digests(images) <==> exists img :: img in images && img.digest == digest
  {
    if digest in Digests(images) {
      var i :| 0 <= i < |images| && Digests(images)[i] == digest;
      assert images[i] in images;
    }
    if exists img :: img in images && img.digest == digest {
      var img :| img in images && img.digest == digest;
      var i :| 0 <= i < |images| && images[i] == img;
      assert Digests(images)[i] == digest;
    }
  }

  /** Flattening never refuses what the images admit, whatever it loses. */
  lemma FlattenWeakens(h: Hashes, r: VerificationResult, images: seq<ImagePin>, platform: Platform, claimed: seq<Bytes>)
    requires images != [] && Admits(h, r, images, platform, claimed)
    ensures FlatAdmits(r, platform, Digests(images), if SameRegisters(images) then images[0].registers else map[])
  {
    var img :| img in images && PinMatches(h, r, platform, claimed, img);
    DigestListed(images, img.digest);
    assert r.claims.launchDigest != [] by { assert TrimSpace([]) == []; }
    var i :| 0 <= i < |images| && images[i] == img;
  }

  /** A uniform set admits exactly what its flat form admits. */
  lemma UniformFlattenPreserves(h: Hashes, r: VerificationResult, images: seq<ImagePin>, platform: Platform,
                                claimed: seq<Bytes>)
    requires images != [] && SameRegisters(images) && forall i :: 0 <= i < |images| ==> !PinsBinding(images[i])
    ensures Admits(h, r, images, platform, claimed) <==>
            VerifiedPlatform(r, platform) && FlatAdmits(r, platform, Digests(images), images[0].registers)
  {
    if Admits(h, r, images, platform, claimed) {
      FlattenWeakens(h, r, images, platform, claimed);
    }
    if VerifiedPlatform(r, platform) && FlatAdmits(r, platform, Digests(images), images[0].registers) {
      var digest := LaunchDigest(r).value;
      DigestListed(images, digest);
      var img :| img in images && img.digest == digest;
      var i :| 0 <= i < |images| && images[i] == img;
      assert PinMatches(h, r, platform, claimed, img);
      forall x | x in images ensures WellFormed(h, platform.Family(), x) {
        var k :| 0 <= k < |images| && images[k] == x;
        assert !PinsBinding(images[k]);
      }
    }
  }

  // ------------------------------------------------------------ flat to image

  const IMAGE_NAME: Bytes := [0x69, 0x6D, 0x61, 0x67, 0x65, 0x2D]   // "image-"

  /** One plain image for each distinct digest, all with the same registers. */
  ghost predicate FlagImages(images: seq<ImagePin>, digests: seq<Bytes>, rtmrs: map<int, Bytes>) {
    && (forall i :: 0 <= i < |images| ==>
          images[i] == ImagePin(IMAGE_NAME + NatDigits(i + 1), images[i].digest, rtmrs, None, None, None, None))
    && NoDup(Digests(images))
    && forall d :: d in Digests(images) <==> d in digests
  }

  method FromFlags(digests: seq<Bytes>, rtmrs: map<int, Bytes>) returns (images: seq<ImagePin>)
    ensures FlagImages(images, digests, rtmrs)
  {
    images := [];
    var seen: set<Bytes> := {};
    for k := 0 to |digests|
      invariant FlagImages(images, digests[..k], rtmrs)
      invariant seen == Elements(digests[..k])
    {
      var d := digests[k];
      assert digests[..k + 1] == digests[..k] + [d];
      if d !in seen {
        seen := seen + {d};
        var img := ImagePin(IMAGE_NAME + NatDigits(|images| + 1), d, rtmrs, None, None, None, None);
        assert Digests(images + [img]) == Digests(images) + [d];
        images := images + [img];
      }
    }
    assert digests[..|digests|] == digests;
  }

  /** On a non-empty digest list the images admit exactly what the flags did. */
  lemma FromFlagsPreserves(h: Hashes, r: VerificationResult, images: seq<ImagePin>, digests: seq<Bytes>,
                           rtmrs: map<int, Bytes>, platform: Platform, claimed: seq<Bytes>)
    requires FlagImages(images, digests, rtmrs) && digests != []
    ensures Admits(h, r, images, platform, claimed) <==>
            VerifiedPlatform(r, platform) && FlatAdmits(r, platform, digests, rtmrs)
  {
    assert digests[0] in Digests(images);
    UniformFlattenPreserves(h, r, images, platform, claimed);
  }

  ghost predicate SameAdmission(h: Hashes, a: Policy, b: Policy) {
    forall r, platform, message, claimed ::
      PolicyAdmits(h, r, a, platform, message, claimed) <==> PolicyAdmits(h, r, b, platform, message, claimed)
  }

  lemma SameWithDigests(h: Hashes, images: seq<ImagePin>, digests: seq<Bytes>, rtmrs: map<int, Bytes>,
                        pcrs: map<int, Bytes>)
    requires FlagImages(images, digests, rtmrs) && digests != []
    ensures SameAdmission(h, Policy(images, [], map[], pcrs), Policy([], digests, rtmrs, pcrs))
  {
    var a, b := Policy(images, [], map[], pcrs), Policy([], digests, rtmrs, pcrs);
    assert digests[0] in Digests(images);
    forall r, platform, message, claimed
      ensures PolicyAdmits(h, r, a, platform, message, claimed) <==> PolicyAdmits(h, r, b, platform, message, claimed)
    {
      FromFlagsPreserves(h, r, images, digests, rtmrs, platform, claimed);
    }
  }

  /** Pins no evidence satisfies admit nothing, whatever stands beside them. */
  lemma ImpossibleAdmitsNothing(h: Hashes, policy: Policy)
    requires !TpmClaims.PcrsPossible(policy.pcrs)
    ensures forall r, platform, message, claimed :: !PolicyAdmits(h, r, policy, platform, message, claimed)
  {
    forall r, platform, message, claimed ensures !PolicyAdmits(h, r, policy, platform, message, claimed) {
      if PolicyAdmits(h, r, policy, platform, message, claimed) {
        TpmClaims.PcrsOnlyIfPossible(platform, message, r.claims, policy.pcrs);
      }
    }
  }

  /** Registers without digests have no image form. */
  lemma RegistersLost(h: Hashes, rtmrs: map<int, Bytes>, pcrs: map<int, Bytes>)
    requires |rtmrs| != 0 && TpmClaims.PcrsPossible(pcrs)
    ensures !SameAdmission(h, Policy([], [], map[], pcrs), Policy([], [], rtmrs, pcrs))
  {
    var message, claims := TpmClaims.PossiblePcrs(pcrs);
    var r := VerificationResult(true, AzSnp, claims);
    assert PolicyAdmits(h, r, Policy([], [], map[], pcrs), AzSnp, Some(message), []);
    assert !PolicyAdmits(h, r, Policy([], [], rtmrs, pcrs), AzSnp, Some(message), []);
  }

  /** Converting flags to images beside any PCR pins keeps every admission decision
      exactly when there is a digest, or no register, to pin: registers alone have
      no image form. The one other case is PCR pins that nothing satisfies. */
  lemma FromFlagsExact(h: Hashes, images: seq<ImagePin>, digests: seq<Bytes>, rtmrs: map<int, Bytes>,
                       pcrs: map<int, Bytes>)
    requires FlagImages(images, digests, rtmrs)
    ensures SameAdmission(h, Policy(images, [], map[], pcrs), Policy([], digests, rtmrs, pcrs))
            <==> digests != [] || |rtmrs| == 0 || !TpmClaims.PcrsPossible(pcrs)
  {
    if images != [] { assert Digests(images)[0] in digests; }
    if digests != [] {
      SameWithDigests(h, images, digests, rtmrs, pcrs);
    } else {
      if !TpmClaims.PcrsPossible(pcrs) {
        ImpossibleAdmitsNothing(h, Policy(images, [], map[], pcrs));
        ImpossibleAdmitsNothing(h, Policy([], digests, rtmrs, pcrs));
      } else if |rtmrs| != 0 {
        RegistersLost(h, rtmrs, pcrs);
      }
    }
  }

  lemma ImageNameSpelled()
    ensures IMAGE_NAME == Ascii("image-")
  {
  }
}
