/** The launch binding a verified guest carries, and the search for how much of
    a claimed extension list it proves. */
module Binding {
  import opened Octets
  import opened HashChain
  import opened JournalText
  import opened TeeTypes

  datatype BindingError =
    | Unverified
    | UnknownPlatform
    | NoRegister
    | BadClaim
    | BadLaunchDigest
    | NotCanonical
    | Mismatch

  /** On az-snp the paravisor owns HOSTDATA, so it carries no launch binding. */
  function CheckBindingPlatform(p: Platform): Option<BindingError> {
    if p.Family() == UnknownFamily then Some(UnknownPlatform)
    else if p.AzSnp? then Some(NoRegister)
    else None
  }

  /** RTMR[3] on TDX, HOSTDATA on SEV-SNP. */
  function BindingOf(r: VerificationResult): (b: Result<Bytes, BindingError>)
    ensures b.Ok? ==> CheckBindingPlatform(r.platform).None?
                      && |b.value| == if r.platform.HasRegisters() then 48 else 32
  {
    if !r.signatureValid then Err(Unverified)
    else match CheckBindingPlatform(r.platform)
      case Some(e) => Err(e)
      case None =>
        if r.platform.HasRegisters() then
          match r.claims.Rtmr(3) case Ok(v) => Ok(v) case Err(_) => Err(BadClaim)
        else if |r.claims.initData| != 32 then Err(BadClaim)
        else Ok(r.claims.initData)
  }

  /** The hash a family commits a launch file under. */
  function FileHash(h: Hashes, f: Family, file: Bytes): Bytes
    requires f != UnknownFamily
  {
    if f == Tdx then h.sha384(file) else h.sha256(file)
  }

  function LaunchFileDigest(h: Hashes, f: Family, file: Bytes): Result<Bytes, BindingError> {
    if f == UnknownFamily then Err(UnknownPlatform)
    else if file == [] then Err(BadLaunchDigest)
    else Ok(FileHash(h, f, file))
  }

  /** Refuses a digest of the wrong width, of no init data, or of the empty file. */
  function CheckLaunchFileDigest(h: Hashes, f: Family, digest: Bytes): Option<BindingError> {
    if f == UnknownFamily then Some(UnknownPlatform)
    else if |digest| != (if f == Tdx then 48 else 32) || digest == Zeros(|digest|)
            || digest == FileHash(h, f, []) then Some(BadLaunchDigest)
    else None
  }

  function ParseLaunchFileDigest(h: Hashes, f: Family, s: Bytes): Result<Bytes, BindingError> {
    if f == UnknownFamily then Err(UnknownPlatform)
    else match ParseDigest(s, if f == Tdx then 48 else 32)
      case Err(_) => Err(BadLaunchDigest)
      case Ok(d) => match CheckLaunchFileDigest(h, f, d) case Some(e) => Err(e) case None => Ok(d)
  }

  function BindingFromDigest(h: Hashes, p: Platform, digest: Bytes, workloads: seq<Bytes>)
    : (r: Result<Bytes, BindingError>)
    ensures r.Ok? ==> |r.value| == if p.HasRegisters() then 48 else 32
  {
    match CheckBindingPlatform(p)
    case Some(e) => Err(e)
    case None =>
      match CheckLaunchFileDigest(h, p.Family(), digest)
      case Some(e) => Err(e)
      case None =>
        if p.HasRegisters() then Ok(Fold(h, Extend(h, Zero(), digest), workloads))
        else if workloads != [] then Err(NoRegister)
        else Ok(digest)
  }

  function ExpectedBinding(h: Hashes, p: Platform, anchor: Bytes, workloads: seq<Bytes>)
    : (r: Result<Bytes, BindingError>)
    ensures r.Ok? ==> |r.value| == if p.HasRegisters() then 48 else 32
  {
    if anchor == [] then Err(BadLaunchDigest)
    else match LaunchFileDigest(h, p.Family(), anchor)
      case Err(e) => Err(e)
      case Ok(d) => BindingFromDigest(h, p, d, workloads)
  }

  function VerifyBinding(h: Hashes, r: VerificationResult, anchor: Bytes, workloads: seq<Bytes>): Option<BindingError> {
    match BindingOf(r)
    case Err(e) => Some(e)
    case Ok(got) =>
      match ExpectedBinding(h, r.platform, anchor, workloads)
      case Err(e) => Some(e)
      case Ok(want) => if got == want then None else Some(Mismatch)
  }

  // ----------------------------------------------------------- prefix replay

  /** What a pin binds a guest to: the launched bytes, or their digest. */
  datatype Bound = Anchor(bytes: Bytes) | FileDigest(digest: Bytes)

  function Want(h: Hashes, p: Platform, bound: Bound): (r: Result<Bytes, BindingError>)
    ensures r.Ok? ==> |r.value| == if p.HasRegisters() then 48 else 32
  {
    match bound
    case Anchor(bytes) => ExpectedBinding(h, p, bytes, [])
    case FileDigest(digest) => BindingFromDigest(h, p, digest, [])
  }

  /** r's binding is bound's seed extended with exactly the first k of claimed. */
  ghost predicate Proves(h: Hashes, r: VerificationResult, bound: Bound, claimed: seq<Bytes>, k: nat) {
    && k <= |claimed|
    && AllCanonical(claimed)
    && BindingOf(r).Ok?
    && Want(h, r.platform, bound).Ok?
    && if k == 0 then BindingOf(r).value == Want(h, r.platform, bound).value
       else r.platform.HasRegisters()
            && BindingOf(r).value == Fold(h, Want(h, r.platform, bound).value, claimed[..k])
  }

  ghost predicate ProvesLeast(h: Hashes, r: VerificationResult, bound: Bound, claimed: seq<Bytes>, k: nat) {
    Proves(h, r, bound, claimed, k) && forall j :: 0 <= j < k ==> !Proves(h, r, bound, claimed, j)
  }

  /** The first check of matchBindingPrefix. */
  method CheckCanonical(claimed: seq<Bytes>) returns (ok: bool)
    ensures ok <==> AllCanonical(claimed)
  {
    for i := 0 to |claimed|
      invariant forall j :: 0 <= j < i ==> IsCanonical(claimed[j])
    {
      CanonicalFixpoint(claimed[i]);
      if CanonicalDigest(claimed[i]) != Ok(claimed[i]) {
        return false;
      }
    }
    return true;
  }

  /** The replay loop of matchBindingPrefix: how many extends of seed give got. */
  method Replay(h: Hashes, seed: Bytes48, claimed: seq<Bytes>, got: Bytes) returns (k: Option<nat>)
    ensures k.Some? ==> 0 < k.value <= |claimed| && got == Fold(h, seed, claimed[..k.value])
                        && forall j :: 0 < j < k.value ==> got != Fold(h, seed, claimed[..j])
    ensures k.None? ==> forall j :: 0 < j <= |claimed| ==> got != Fold(h, seed, claimed[..j])
  {
    var reg := seed;
    for i := 0 to |claimed|
      invariant reg == Fold(h, seed, claimed[..i])
      invariant forall j :: 0 < j <= i ==> got != Fold(h, seed, claimed[..j])
    {
      FoldSnoc(h, seed, claimed[..i], claimed[i]);
      assert claimed[..i + 1] == claimed[..i] + [claimed[i]];
      reg := Extend(h, reg, Event(h, claimed[i]));
      if got == reg {
        return Some(i + 1);
      }
    }
    return None;
  }

  /** What proves a prefix once the list and both values are known to be sound. */
  lemma ProvesByValue(h: Hashes, r: VerificationResult, bound: Bound, claimed: seq<Bytes>, got: Bytes, want: Bytes,
                      k: nat)
    requires AllCanonical(claimed) && BindingOf(r) == Ok(got) && Want(h, r.platform, bound) == Ok(want)
    ensures Proves(h, r, bound, claimed, k) <==>
            k <= |claimed| && if k == 0 then got == want
                              else r.platform.HasRegisters() && got == Fold(h, want, claimed[..k])
  {
  }

  /** matchBindingPrefix: the least proven prefix, and an error exactly when there
      is none. */
  method MatchBindingPrefix(h: Hashes, r: VerificationResult, bound: Bound, claimed: seq<Bytes>)
    returns (res: Result<nat, BindingError>)
    ensures res.Ok? ==> ProvesLeast(h, r, bound, claimed, res.value)
    ensures res.Err? ==> forall k :: !Proves(h, r, bound, claimed, k)
    ensures res.Err? ==> res.error == if !AllCanonical(claimed) then NotCanonical
                                      else if BindingOf(r).Err? then BindingOf(r).error
                                      else if Want(h, r.platform, bound).Err? then Want(h, r.platform, bound).error
                                      else Mismatch
  {
    var canonical := CheckCanonical(claimed);
    if !canonical {
      return Err(NotCanonical);
    }
    var got := BindingOf(r);
    if got.Err? {
      return Err(got.error);
    }
    var want := Want(h, r.platform, bound);
    if want.Err? {
      return Err(want.error);
    }
    forall k: nat
      ensures Proves(h, r, bound, claimed, k) <==>
              k <= |claimed| && if k == 0 then got.value == want.value
                                else r.platform.HasRegisters() && got.value == Fold(h, want.value, claimed[..k])
    {
      ProvesByValue(h, r, bound, claimed, got.value, want.value, k);
    }
    if got.value == want.value {
      return Ok(0);
    }
    if !r.platform.HasRegisters() || claimed == [] {
      return Err(Mismatch);
    }
    var k := Replay(h, want.value, claimed, got.value);
    return if k.Some? then Ok(k.value) else Err(Mismatch);
  }

  /** Two proven prefixes of one list are one prefix, or break the hash. */
  lemma ProvenPrefixUnique(h: Hashes, r: VerificationResult, bound: Bound, claimed: seq<Bytes>, j: nat, k: nat)
    requires Proves(h, r, bound, claimed, j) && Proves(h, r, bound, claimed, k)
    ensures || j == k
            || (r.platform.HasRegisters()
                && FoldsBreak(h, Want(h, r.platform, bound).value, claimed[..j], claimed[..k]))
  {
    var seed := Want(h, r.platform, bound).value;
    if j != k {
      assert Fold(h, seed, []) == seed;
      assert claimed[..0] == [];
      assert |claimed[..j]| != |claimed[..k]|;
      DifferentFolds(h, seed, claimed[..j], claimed[..k]);
    }
  }

  /** On TDX a digest and k extensions are proven exactly when the signed RTMR[3]
      is the fold of those extensions on the digest's seed, and the digest is one
      a launch file can have. */
  lemma TdxProves(h: Hashes, r: VerificationResult, digest: Bytes, claimed: seq<Bytes>, k: nat)
    requires r.platform.HasRegisters()
    ensures Proves(h, r, FileDigest(digest), claimed, k) <==>
            && r.signatureValid && AllCanonical(claimed) && k <= |claimed|
            && |digest| == 48 && digest != Zeros(48) && digest != h.sha384([])
            && 3 in r.claims.rtmrs
            && r.claims.rtmrs[3] == HexEncode(Fold(h, Extend(h, Zero(), digest), claimed[..k]))
  {
    var seed := Extend(h, Zero(), digest);
    assert claimed[..0] == [] && Events(h, []) == [];
    assert Fold(h, seed, []) == seed;
    if 3 in r.claims.rtmrs && k <= |claimed| {
      ParseDigestExact(r.claims.rtmrs[3], 48, Fold(h, seed, claimed[..k]));
    }
  }

  /** On SEV-SNP no runtime extension is ever proven: the signed HOSTDATA is the
      digest itself. */
  lemma SnpProves(h: Hashes, r: VerificationResult, digest: Bytes, claimed: seq<Bytes>, k: nat)
    requires r.platform.Snp? || r.platform.GcpSnp?
    ensures Proves(h, r, FileDigest(digest), claimed, k) <==>
            && r.signatureValid && AllCanonical(claimed) && k == 0
            && |digest| == 32 && digest != Zeros(32) && digest != h.sha256([])
            && r.claims.initData == digest
  {
  }

  /** No other platform proves anything: the Azure paravisor owns HOSTDATA on
      az-snp, and an unknown tag has no rules. */
  lemma OthersProveNothing(h: Hashes, r: VerificationResult, bound: Bound, claimed: seq<Bytes>, k: nat)
    requires Proves(h, r, bound, claimed, k)
    ensures r.signatureValid && r.platform in {Snp, GcpSnp, BareTdx, AzTdx, GcpTdx}
  {
  }

  /** Pinning a file and pinning its digest prove the same prefixes. */
  lemma AnchorIsItsDigest(h: Hashes, r: VerificationResult, file: Bytes, digest: Bytes, claimed: seq<Bytes>, k: nat)
    requires LaunchFileDigest(h, r.platform.Family(), file) == Ok(digest)
    ensures Proves(h, r, Anchor(file), claimed, k) <==> Proves(h, r, FileDigest(digest), claimed, k)
  {
  }

  /** Whole-list verification is prefix replay with nothing left over. */
  lemma VerifyBindingIsReplay(h: Hashes, r: VerificationResult, anchor: Bytes, workloads: seq<Bytes>)
    requires AllCanonical(workloads)
    ensures VerifyBinding(h, r, anchor, workloads).None? <==> Proves(h, r, Anchor(anchor), workloads, |workloads|)
  {
    assert workloads[..|workloads|] == workloads;
    if anchor != [] && r.platform.HasRegisters() {
      assert Events(h, []) == [];
    }
  }

  /** Everything a register bound to digest was extended with, from its reset on. */
  function Launched(h: Hashes, digest: Bytes, extensions: seq<Bytes>): seq<Bytes> {
    [digest] + Events(h, extensions)
  }

  /** A guest that proves one launch was not launched for another: two bindings
      that both prove a prefix agree on the committed digest and on that prefix, or
      what those registers hashed breaks the hash. The second list is the guest's
      word too, so it may differ. */
  lemma BoundDigestUnique(h: Hashes, r: VerificationResult, d1: Bytes, c1: seq<Bytes>, k1: nat, d2: Bytes,
                          c2: seq<Bytes>, k2: nat)
    requires Proves(h, r, FileDigest(d1), c1, k1) && Proves(h, r, FileDigest(d2), c2, k2)
    ensures || (d1 == d2 && k1 == k2 && c1[..k1] == c2[..k2])
            || (r.platform.HasRegisters()
                && (|| ChainsBreak(h, Zero(), Launched(h, d1, c1[..k1]), Launched(h, d2, c2[..k2]))
                    || (d1 == d2 && FoldsBreak(h, Extend(h, Zero(), d1), c1[..k1], c2[..k2]))))
  {
    if r.platform.HasRegisters() {
      var a1, a2 := Launched(h, d1, c1[..k1]), Launched(h, d2, c2[..k2]);
      TdxProves(h, r, d1, c1, k1);
      TdxProves(h, r, d2, c2, k2);
      HexInjective(Fold(h, Extend(h, Zero(), d1), c1[..k1]), Fold(h, Extend(h, Zero(), d2), c2[..k2]));
      SeededFold(h, d1, c1[..k1]);
      SeededFold(h, d2, c2[..k2]);
      if a1 != a2 {
        assert IsBreak(h, Zero(), a1, a2, FindBreak(h, Zero(), a1, a2));
      } else {
        assert d1 == a1[0] && d2 == a2[0];
        if c1[..k1] != c2[..k2] { DifferentFolds(h, Extend(h, Zero(), d1), c1[..k1], c2[..k2]); }
      }
    }
  }

  lemma SeededFold(h: Hashes, digest: Bytes, ds: seq<Bytes>)
    ensures Fold(h, Extend(h, Zero(), digest), ds) == Chain(h, Zero(), Launched(h, digest, ds))
  {
    assert [digest][..0] == [];
    assert Chain(h, Zero(), [digest]) == Extend(h, Zero(), digest);
    ChainAppend(h, Zero(), [digest], Events(h, ds));
  }

  // --------------------------------------------------- bindings, spelled out

  /** A digest a launch file of the family can be committed under. */
  ghost predicate CommitsFile(h: Hashes, f: Family, digest: Bytes) {
    && (exists i :: 0 <= i < |digest| && digest[i] != 0)
    && (|| (f == Tdx && |digest| == 48 && digest != h.sha384([]))
        || (f == SevSnp && |digest| == 32 && digest != h.sha256([])))
  }

  lemma FileDigestExact(h: Hashes, f: Family, digest: Bytes)
    ensures CheckLaunchFileDigest(h, f, digest).None? <==> CommitsFile(h, f, digest)
  {
    if forall i :: 0 <= i < |digest| ==> digest[i] == 0 {
      assert digest == Zeros(|digest|);
    }
  }

  lemma LaunchFileExact(h: Hashes, f: Family, file: Bytes, digest: Bytes)
    ensures LaunchFileDigest(h, f, file) == Ok(digest) <==>
            file != [] && ((f == Tdx && digest == h.sha384(file)) || (f == SevSnp && digest == h.sha256(file)))
  {
  }

  lemma ParsedFileDigestExact(h: Hashes, f: Family, s: Bytes, digest: Bytes)
    ensures ParseLaunchFileDigest(h, f, s) == Ok(digest) <==> CommitsFile(h, f, digest) && s == HexEncode(digest)
  {
    FileDigestExact(h, f, digest);
    ParseDigestExact(s, if f == Tdx then 48 else 32, digest);
  }

  /** What RTMR[3] holds at launch for a committed digest. */
  function LaunchSeed(h: Hashes, digest: Bytes): Bytes48 {
    h.sha384(Zeros(48) + digest)
  }

  /** r is signed evidence bound to a file of this digest, with exactly these
      extensions on top. */
  ghost predicate CarriesBinding(h: Hashes, r: VerificationResult, digest: Bytes, extensions: seq<Bytes>) {
    && r.signatureValid
    && if r.platform in {BareTdx, AzTdx, GcpTdx}
       then && CommitsFile(h, Tdx, digest) && 3 in r.claims.rtmrs
            && r.claims.rtmrs[3] == HexEncode(Fold(h, LaunchSeed(h, digest), extensions))
       else && r.platform in {Snp, GcpSnp} && CommitsFile(h, SevSnp, digest)
            && extensions == [] && r.claims.initData == digest
  }

  lemma BindingFromDigestExact(h: Hashes, r: VerificationResult, digest: Bytes, extensions: seq<Bytes>)
    ensures CarriesBinding(h, r, digest, extensions) <==>
            && BindingOf(r).Ok?
            && BindingFromDigest(h, r.platform, digest, extensions) == BindingOf(r)
  {
    PlatformsExact(r.platform);
    FileDigestExact(h, r.platform.Family(), digest);
    if r.platform.HasRegisters() && 3 in r.claims.rtmrs {
      ParseDigestExact(r.claims.rtmrs[3], 48, Fold(h, LaunchSeed(h, digest), extensions));
    }
  }

  /** The hash each platform commits a launch file under. */
  function CommittedDigest(h: Hashes, p: Platform, file: Bytes): Bytes {
    if p in {BareTdx, AzTdx, GcpTdx} then h.sha384(file) else h.sha256(file)
  }

  /** Verifying against a file and a workload list accepts exactly signed evidence
      bound to that non-empty file: on TDX by RTMR[3], extended with the SHA-384 of
      the file and then the workloads, on SEV-SNP by HOSTDATA, its SHA-256. */
  lemma VerifyBindingExact(h: Hashes, r: VerificationResult, file: Bytes, workloads: seq<Bytes>)
    ensures VerifyBinding(h, r, file, workloads).None? <==>
            file != [] && CarriesBinding(h, r, CommittedDigest(h, r.platform, file), workloads)
  {
    PlatformsExact(r.platform);
    BindingFromDigestExact(h, r, CommittedDigest(h, r.platform, file), workloads);
  }

  /** So a prefix is proven exactly when the evidence carries the binding with that
      prefix on top, and the whole list is canonical. */
  lemma ProvesExact(h: Hashes, r: VerificationResult, digest: Bytes, claimed: seq<Bytes>, k: nat)
    ensures Proves(h, r, FileDigest(digest), claimed, k) <==>
            k <= |claimed| && AllCanonical(claimed) && CarriesBinding(h, r, digest, claimed[..k])
  {
    PlatformsExact(r.platform);
    FileDigestExact(h, r.platform.Family(), digest);
    if r.platform.HasRegisters() {
      TdxProves(h, r, digest, claimed, k);
    }
  }

  /** What no binding can be read from, in this order: an unsigned result, an unknown
      platform, az-snp, and a claim that is not the width of its register. */
  lemma NoBindingExact(r: VerificationResult)
    ensures BindingOf(r).Err? ==>
              BindingOf(r).error == if !r.signatureValid then Unverified
                                    else if r.platform !in {Snp, AzSnp, GcpSnp, BareTdx, AzTdx, GcpTdx}
                                    then UnknownPlatform
                                    else if r.platform == AzSnp then NoRegister
                                    else BadClaim
    ensures BindingOf(r).Ok? <==>
            && r.signatureValid
            && if r.platform in {BareTdx, AzTdx, GcpTdx}
               then 3 in r.claims.rtmrs && |r.claims.rtmrs[3]| == 96 && AllLowerHex(r.claims.rtmrs[3])
               else r.platform in {Snp, GcpSnp} && |r.claims.initData| == 32
  {
    PlatformsExact(r.platform);
  }
}
