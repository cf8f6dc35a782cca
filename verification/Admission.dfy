/** What admission means, on the evidence's bytes alone. */
module Admission {
  import opened Octets
  import opened HashChain
  import opened JournalText
  import opened TeeTypes
  import opened Binding
  import opened Images
  import opened RefPolicy
  import TpmClaims
  import TpmQuote

  // ------------------------------------------------------------------- pins

  ghost predicate RegistersHold(claims: Claims, platform: Platform, registers: map<int, Bytes>) {
    forall i :: i in registers ==>
      && platform in {BareTdx, AzTdx, GcpTdx}
      && 0 <= i <= 3 && i in claims.rtmrs && |registers[i]| == 48 && claims.rtmrs[i] == HexEncode(registers[i])
  }

  lemma RegistersMatchExact(r: VerificationResult, platform: Platform, registers: map<int, Bytes>)
    ensures RegistersMatch(r, platform, registers) <==> RegistersHold(r.claims, platform, registers)
  {
    PlatformsExact(platform);
    RegistersExact(r.claims, registers);
    if registers.Keys != {} {
      var i := AnElement(registers.Keys);
      assert i in registers;
    }
  }

  /** Which of its three launch bindings a pin sets. */
  function BindingCount(img: ImagePin): nat {
    (if img.anchor.Some? then 1 else 0) + (if img.launchFile.Some? then 1 else 0)
    + (if img.launchFileDigest.Some? then 1 else 0)
  }

  /** A pin that cannot mean what it says: two bindings to one field, an empty file, a
      hook no launch file calls, or a digest no file of the family has. */
  ghost predicate Meaningless(h: Hashes, family: Family, img: ImagePin) {
    || BindingCount(img) > 1
    || img.launchFile == Some([])
    || (img.launchFile.Some? && img.acceptExtension.Some?)
    || (img.launchFileDigest.Some? && !CommitsFile(h, family, img.launchFileDigest.value))
  }

  lemma WellFormedExact(h: Hashes, family: Family, img: ImagePin)
    ensures WellFormed(h, family, img) <==> !Meaningless(h, family, img)
  {
    if img.launchFileDigest.Some? { FileDigestExact(h, family, img.launchFileDigest.value); }
  }

  // --------------------------------------------------------------- bindings

  /** The evidence is bound to digest with some first part of claimed on top, and the
      pin's hook takes all of the least such part. */
  ghost predicate BoundTo(h: Hashes, r: VerificationResult, digest: Bytes, claimed: seq<Bytes>,
                          accept: Option<Bytes -> bool>)
  {
    && AllCanonical(claimed)
    && exists k :: LeastCarried(h, r, digest, claimed, k)
                   && forall i :: 0 <= i < k ==> accept.Some? && accept.value(claimed[i])
  }

  ghost predicate LeastCarried(h: Hashes, r: VerificationResult, digest: Bytes, claimed: seq<Bytes>, k: int) {
    && 0 <= k <= |claimed| && CarriesBinding(h, r, digest, claimed[..k])
    && forall j :: 0 <= j < k ==> !CarriesBinding(h, r, digest, claimed[..j])
  }

  lemma LeastExact(h: Hashes, r: VerificationResult, digest: Bytes, claimed: seq<Bytes>, k: nat)
    requires AllCanonical(claimed)
    ensures ProvesLeast(h, r, FileDigest(digest), claimed, k) <==> LeastCarried(h, r, digest, claimed, k)
  {
    ProvesExact(h, r, digest, claimed, k);
    forall j: nat | j < k <= |claimed|
      ensures Proves(h, r, FileDigest(digest), claimed, j) <==> CarriesBinding(h, r, digest, claimed[..j])
    {
      ProvesExact(h, r, digest, claimed, j);
    }
  }

  lemma BoundExact(h: Hashes, r: VerificationResult, digest: Bytes, claimed: seq<Bytes>, accept: Option<Bytes -> bool>)
    ensures ReplayAccepted(h, r, FileDigest(digest), claimed, accept) <==> BoundTo(h, r, digest, claimed, accept)
  {
    if ReplayAccepted(h, r, FileDigest(digest), claimed, accept) {
      var k :| ProvesLeast(h, r, FileDigest(digest), claimed, k) && Judged(claimed, k, accept);
      LeastExact(h, r, digest, claimed, k);
    }
    if BoundTo(h, r, digest, claimed, accept) {
      var k :| LeastCarried(h, r, digest, claimed, k)
               && forall i :: 0 <= i < k ==> accept.Some? && accept.value(claimed[i]);
      LeastExact(h, r, digest, claimed, k);
      assert Judged(claimed, k, accept);
    }
  }

  /** The same for a pinned file, which must not be empty. */
  lemma AnchorExact(h: Hashes, r: VerificationResult, file: Bytes, claimed: seq<Bytes>, accept: Option<Bytes -> bool>)
    ensures ReplayAccepted(h, r, Anchor(file), claimed, accept) <==>
            file != [] && BoundTo(h, r, CommittedDigest(h, r.platform, file), claimed, accept)
  {
    var digest := CommittedDigest(h, r.platform, file);
    PlatformsExact(r.platform);
    BoundExact(h, r, digest, claimed, accept);
    forall k: nat ensures Proves(h, r, Anchor(file), claimed, k) <==>
                          file != [] && Proves(h, r, FileDigest(digest), claimed, k)
    {
    }
    if file != [] {
      forall k: nat
        ensures ProvesLeast(h, r, Anchor(file), claimed, k) <==> ProvesLeast(h, r, FileDigest(digest), claimed, k)
      {
      }
    }
  }

  // -------------------------------------------------------------- admission

  /** One pin holds of the evidence: the launch digest, trimmed and in either case, all
      registers, and the binding it sets. */
  ghost predicate PinHolds(h: Hashes, r: VerificationResult, platform: Platform, claimed: seq<Bytes>, img: ImagePin) {
    && |img.digest| == 48 && ToLower(TrimSpace(r.claims.launchDigest)) == HexEncode(img.digest)
    && RegistersHold(r.claims, platform, img.registers)
    && (img.anchor.Some? ==>
          img.anchor.value != []
          && BoundTo(h, r, CommittedDigest(h, r.platform, img.anchor.value), claimed, img.acceptExtension))
    && (img.launchFile.Some? ==>
          img.launchFile.value != []
          && CarriesBinding(h, r, CommittedDigest(h, r.platform, img.launchFile.value), []))
    && (img.launchFileDigest.Some? ==> BoundTo(h, r, img.launchFileDigest.value, claimed, img.acceptExtension))
  }

  lemma PinMatchesExact(h: Hashes, r: VerificationResult, platform: Platform, claimed: seq<Bytes>, img: ImagePin)
    ensures PinMatches(h, r, platform, claimed, img) <==> PinHolds(h, r, platform, claimed, img)
  {
    LaunchDigestExact(r, img.digest);
    RegistersMatchExact(r, platform, img.registers);
    if img.anchor.Some? { AnchorExact(h, r, img.anchor.value, claimed, img.acceptExtension); }
    if img.launchFile.Some? { VerifyBindingExact(h, r, img.launchFile.value, []); }
    if img.launchFileDigest.Some? { BoundExact(h, r, img.launchFileDigest.value, claimed, img.acceptExtension); }
  }

  /** Evidence is admitted against a non-empty pin list exactly when it was verified
      for the platform it claims, no pin is meaningless, and some pin holds. */
  lemma AdmissionExact(h: Hashes, r: VerificationResult, images: seq<ImagePin>, platform: Platform, claimed: seq<Bytes>)
    requires images != []
    ensures Admits(h, r, images, platform, claimed) <==>
            && (r.platform == Unnamed || r.platform == platform)
            && (forall img :: img in images ==> !Meaningless(h, platform.Family(), img))
            && exists img :: img in images && PinHolds(h, r, platform, claimed, img)
  {
    forall img ensures WellFormed(h, platform.Family(), img) <==> !Meaningless(h, platform.Family(), img) {
      WellFormedExact(h, platform.Family(), img);
    }
    forall img ensures PinMatches(h, r, platform, claimed, img) <==> PinHolds(h, r, platform, claimed, img) {
      PinMatchesExact(h, r, platform, claimed, img);
    }
  }

  // --------------------------------------------------------------- refusals

  /** k is the last pin of this digest. */
  ghost predicate LastOf(images: seq<ImagePin>, digest: Bytes, k: int) {
    0 <= k < |images| && images[k].digest == digest && forall j :: k < j < |images| ==> images[j].digest != digest
  }

  lemma {:induction false} LastExact(images: seq<ImagePin>, digest: Bytes)
    ensures match LastWithDigest(images, digest)
            case None => forall img :: img in images ==> img.digest != digest
            case Some(img) => exists k :: LastOf(images, digest, k) && images[k] == img
  {
    if images != [] {
      var front, n := images[..|images| - 1], |images| - 1;
      LastExact(front, digest);
      if images[n].digest == digest {
        assert LastOf(images, digest, n);
      } else if LastWithDigest(front, digest).Some? {
        var k :| LastOf(front, digest, k) && front[k] == LastWithDigest(front, digest).value;
        assert LastOf(images, digest, k);
      }
    }
  }

  /** A refusal says, in this order: wrong platform; a meaningless pin; no launch digest,
      or one that is not 48 bytes of hex; no pin of that digest; and otherwise what
      failed of the last such pin, registers before anchor before launch file. */
  lemma RefusalExact(h: Hashes, r: VerificationResult, images: seq<ImagePin>, platform: Platform, claimed: seq<Bytes>)
    requires images != [] && !Admits(h, r, images, platform, claimed)
    ensures var why := Refusal(h, r, images, platform, claimed);
            var text := ToLower(TrimSpace(r.claims.launchDigest));
            if r.platform != Unnamed && r.platform != platform then why == PlatformMismatch
            else if exists img :: img in images && Meaningless(h, platform.Family(), img)
            then why == LaunchFileNotAllowed
            else if TrimSpace(r.claims.launchDigest) == [] then why == MeasurementNotAllowed
            else if |text| != 96 || !AllLowerHex(text) then why == InvalidLaunchDigest
            else if forall img :: img in images ==> HexEncode(img.digest) != text then why == MeasurementNotAllowed
            else exists k :: 0 <= k < |images| && HexEncode(images[k].digest) == text
                             && LastOf(images, images[k].digest, k)
                             && why == PinRefusal(h, r, platform, claimed, images[k])
  {
    AllWellFormed(h, images, platform.Family());
    LaunchDigestReads(r);
    if LaunchDigest(r).Ok? {
      RefusedPin(h, r, images, platform, claimed, LaunchDigest(r).value);
    }
  }

  lemma AllWellFormed(h: Hashes, images: seq<ImagePin>, family: Family)
    ensures (exists img :: img in images && !WellFormed(h, family, img))
            <==> exists img :: img in images && Meaningless(h, family, img)
  {
    forall img ensures WellFormed(h, family, img) <==> !Meaningless(h, family, img) {
      WellFormedExact(h, family, img);
    }
  }

  lemma LaunchDigestReads(r: VerificationResult)
    ensures var text := ToLower(TrimSpace(r.claims.launchDigest));
            LaunchDigest(r) == if TrimSpace(r.claims.launchDigest) == [] then Err(MeasurementNotAllowed)
                               else if |text| != 96 || !AllLowerHex(text) then Err(InvalidLaunchDigest)
                               else Ok(HexDecode(text))
  {
  }

  ghost function PinRefusal(h: Hashes, r: VerificationResult, platform: Platform, claimed: seq<Bytes>, img: ImagePin)
    : PolicyError
  {
    if !RegistersHold(r.claims, platform, img.registers) then RegistersNotAllowed
    else if img.anchor.Some?
            && !(img.anchor.value != []
                 && BoundTo(h, r, CommittedDigest(h, r.platform, img.anchor.value), claimed, img.acceptExtension))
    then AnchorNotAllowed
    else LaunchFileNotAllowed
  }

  lemma RefusedPin(h: Hashes, r: VerificationResult, images: seq<ImagePin>, platform: Platform, claimed: seq<Bytes>,
                   digest: Bytes)
    requires LaunchDigest(r) == Ok(digest)
    ensures forall img :: img in images ==>
              (HexEncode(img.digest) == ToLower(TrimSpace(r.claims.launchDigest)) <==> img.digest == digest)
    ensures match LastWithDigest(images, digest)
            case None => forall img :: img in images ==> img.digest != digest
            case Some(img) => && NearMiss(h, r, platform, claimed, img) == PinRefusal(h, r, platform, claimed, img)
                              && exists k :: LastOf(images, digest, k) && images[k] == img
  {
    LaunchDigestExact(r, digest);
    LastExact(images, digest);
    forall img | img in images ensures HexEncode(img.digest) == HexEncode(digest) <==> img.digest == digest {
      HexInjective(img.digest, digest);
    }
    if LastWithDigest(images, digest).Some? {
      var img := LastWithDigest(images, digest).value;
      RegistersMatchExact(r, platform, img.registers);
      if img.anchor.Some? { AnchorExact(h, r, img.anchor.value, claimed, img.acceptExtension); }
    }
  }

  // --------------------------------------------------------------- flat pins

  /** Flat pins take the evidence exactly when its launch digest is one of those pinned,
      or, none being pinned, absent or well formed; and every pinned register holds. */
  lemma FlatExact(r: VerificationResult, platform: Platform, measurements: seq<Bytes>, registers: map<int, Bytes>)
    ensures FlatAdmits(r, platform, measurements, registers) <==>
            && RegistersHold(r.claims, platform, registers)
            && var text := ToLower(TrimSpace(r.claims.launchDigest));
               if measurements != []
               then exists d :: d in measurements && |d| == 48 && text == HexEncode(d)
               else r.claims.launchDigest == [] || (|text| == 96 && AllLowerHex(text))
  {
    RegistersMatchExact(r, platform, registers);
    var text := ToLower(TrimSpace(r.claims.launchDigest));
    if r.claims.launchDigest == [] {
      assert TrimSpace([]) == [] && text == [];
      assert forall d: Bytes :: |d| == 48 ==> |HexEncode(d)| == 96;
    } else if LaunchDigest(r).Ok? {
      LaunchDigestExact(r, LaunchDigest(r).value);
      forall d | d in measurements && |d| == 48 && text == HexEncode(d) ensures d == LaunchDigest(r).value {
        LaunchDigestExact(r, d);
      }
    } else {
      forall d: Bytes ensures !(|d| == 48 && text == HexEncode(d)) {
        LaunchDigestExact(r, d);
      }
    }
  }

  /** A policy takes the evidence exactly when it was verified for its platform, every
      PCR pin is signed and claimed, and then whole images or flat pins take it. */
  lemma PolicyExact(h: Hashes, r: VerificationResult, policy: Policy, platform: Platform, message: Option<Bytes>,
                    claimed: seq<Bytes>)
    ensures PolicyAdmits(h, r, policy, platform, message, claimed) <==>
            && (r.platform == Unnamed || r.platform == platform)
            && (|| |policy.pcrs| == 0
                || (&& platform in {AzSnp, AzTdx} && message.Some? && TpmQuote.ParseQuote(message.value).Ok?
                    && forall i :: i in policy.pcrs ==> TpmClaims.PcrHolds(message.value, r.claims, i, policy.pcrs[i])))
            && if policy.images != [] then Admits(h, r, policy.images, platform, claimed)
               else FlatAdmits(r, platform, policy.measurements, policy.registers)
  {
    TpmClaims.PcrsExact(platform, message, r.claims, policy.pcrs);
  }
}
