/** Platforms, and the claims a verified result carries. */
module TeeTypes {
  import opened Octets

  datatype Family = UnknownFamily | SevSnp | Tdx

  /** Platform tags, already trimmed and case-folded. Unnamed is a result that
      names no platform. */
  datatype Platform = Unnamed | Snp | AzSnp | GcpSnp | BareTdx | AzTdx | GcpTdx | OtherTag(tag: Bytes) {
    function Family(): Family {
      if Snp? || AzSnp? || GcpSnp? then SevSnp
      else if BareTdx? || AzTdx? || GcpTdx? then Tdx
      else UnknownFamily
    }

    predicate HasRegisters() {
      Family() == Tdx
    }

    predicate HasVtpmQuote() {
      AzSnp? || AzTdx?
    }
  }

  /** rtmrs holds the claimed register strings by index; tpm the vTPM claims by
      name, absent on platforms without them. */
  datatype Claims = Claims(launchDigest: Bytes, initData: Bytes, rtmrs: map<int, Bytes>,
                           tpm: Option<map<Bytes, Bytes>>) {

    function Rtmr(i: int): (r: Result<Bytes, ()>)
      ensures r.Ok? ==> |r.value| == 48
    {
      if i < 0 || i > 3 || i !in rtmrs then Err(()) else ParseDigest(rtmrs[i], 48)
    }

    function LaunchMeasurement(): (r: Result<Bytes, ()>)
      ensures r.Ok? ==> |r.value| == 48
    {
      ParseDigest(ToLower(TrimSpace(launchDigest)), 48)
    }

    /** Every pinned register is claimed, well formed, and equal. */
    predicate CheckRtmrs(pinned: map<int, Bytes>) {
      forall i :: i in pinned ==> Rtmr(i) == Ok(pinned[i])
    }
  }

  datatype VerificationResult = VerificationResult(signatureValid: bool, platform: Platform, claims: Claims)

  // ------------------------------------------------------- family spellings

  const SEV_SNP: Bytes := [0x73, 0x65, 0x76, 0x2D, 0x73, 0x6E, 0x70]   // "sev-snp"
  const SNP: Bytes := [0x73, 0x6E, 0x70]   // "snp"
  const AZ_SNP: Bytes := [0x61, 0x7A, 0x2D, 0x73, 0x6E, 0x70]   // "az-snp"
  const GCP_SNP: Bytes := [0x67, 0x63, 0x70, 0x2D, 0x73, 0x6E, 0x70]   // "gcp-snp"
  const TDX: Bytes := [0x74, 0x64, 0x78]   // "tdx"
  const AZ_TDX: Bytes := [0x61, 0x7A, 0x2D, 0x74, 0x64, 0x78]   // "az-tdx"
  const GCP_TDX: Bytes := [0x67, 0x63, 0x70, 0x2D, 0x74, 0x64, 0x78]   // "gcp-tdx"

  /** A family's canonical name; empty for the unknown one. */
  function FamilyName(f: Family): Bytes {
    match f case UnknownFamily => [] case SevSnp => SEV_SNP case Tdx => TDX
  }

  /** Any spelling of a family or of a platform tag, trimmed and case-folded. */
  function ParseFamily(s: Bytes): (r: Result<Family, ()>)
    ensures r.Ok? ==> r.value != UnknownFamily
  {
    var p := ToLower(TrimSpace(s));
    if p == SEV_SNP || p == SNP || p == AZ_SNP || p == GCP_SNP then Ok(SevSnp)
    else if p == TDX || p == AZ_TDX || p == GCP_TDX then Ok(Tdx)
    else Err(())
  }

  lemma FamilyNameParses(f: Family)
    ensures ParseFamily(FamilyName(f)) == if f == UnknownFamily then Err(()) else Ok(f)
  {
    var s := FamilyName(f);
    if f == UnknownFamily {
      assert TrimSpace(s) == [];
    } else {
      TrimNothing(s);
      assert ToLower(s) == s;
    }
  }

  // -------------------------------------------------- the tables, spelled out

  lemma PlatformsExact(p: Platform)
    ensures p.HasRegisters() <==> p in {BareTdx, AzTdx, GcpTdx}
    ensures p.HasVtpmQuote() <==> p in {AzSnp, AzTdx}
    ensures p.Family() == if p in {BareTdx, AzTdx, GcpTdx} then Tdx
                          else if p in {Snp, AzSnp, GcpSnp} then SevSnp else UnknownFamily
  {
  }

  lemma NamesSpelled()
    ensures SEV_SNP == Ascii("sev-snp") && SNP == Ascii("snp")
    ensures AZ_SNP == Ascii("az-snp") && GCP_SNP == Ascii("gcp-snp")
    ensures TDX == Ascii("tdx") && AZ_TDX == Ascii("az-tdx") && GCP_TDX == Ascii("gcp-tdx")
  {
  }

  /** A family is named by itself or by any of its platforms, trimmed, in either case. */
  lemma FamilyExact(s: Bytes, f: Family)
    ensures var name := ToLower(TrimSpace(s));
            ParseFamily(s) == Ok(f) <==>
              || (f == SevSnp && (|| name == Ascii("sev-snp") || name == Ascii("snp")
                                  || name == Ascii("az-snp") || name == Ascii("gcp-snp")))
              || (f == Tdx && (name == Ascii("tdx") || name == Ascii("az-tdx") || name == Ascii("gcp-tdx")))
  {
    NamesSpelled();
    assert Ascii("tdx")[0] != Ascii("sev-snp")[0] && Ascii("tdx")[0] != Ascii("snp")[0];
    assert Ascii("az-tdx")[3] != Ascii("az-snp")[3] && Ascii("gcp-tdx")[4] != Ascii("gcp-snp")[4];
  }

  /** Register pins hold exactly when each pinned register is claimed, as the hex of
      the pinned 48 bytes. One the claims do not carry refuses. */
  lemma RegistersExact(claims: Claims, pinned: map<int, Bytes>)
    ensures claims.CheckRtmrs(pinned) <==>
            forall i :: i in pinned ==>
              0 <= i <= 3 && i in claims.rtmrs && |pinned[i]| == 48 && claims.rtmrs[i] == HexEncode(pinned[i])
  {
    forall i | i in pinned
      ensures claims.Rtmr(i) == Ok(pinned[i]) <==>
              0 <= i <= 3 && i in claims.rtmrs && |pinned[i]| == 48 && claims.rtmrs[i] == HexEncode(pinned[i])
    {
      if i in claims.rtmrs { ParseDigestExact(claims.rtmrs[i], 48, pinned[i]); }
    }
  }
}
