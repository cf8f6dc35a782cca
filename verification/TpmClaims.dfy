/** vTPM claims: which registers of an attester's bank are published, and why
    the quote's signed digest vouches for exactly those. */
module TpmClaims {
  import opened Octets
  import opened HashChain
  import opened TeeTypes
  import opened TpmQuote

  const PCR: Bytes := [0x70, 0x63, 0x72]                  // "pcr"
  const NONCE: Bytes := [0x6E, 0x6F, 0x6E, 0x63, 0x65]    // "nonce"
  const PCR_COUNT: nat := 24

  datatype PcrError = NoPcrs | BadSize | BadQuote(why: QuoteError) | OutOfBank | DigestMismatch
  datatype InitDataError = BadWidth | BadSelection(why: QuoteError) | NotSigned | NotPresent | InitDataMismatch

  // ------------------------------------------------------------ verification

  /** The bank's values at the selected indices, joined. */
  function Concat(pcrs: seq<Bytes>, selected: seq<nat>): Bytes
    requires InBank(pcrs, selected)
  {
    if selected == [] then []
    else Concat(pcrs, selected[..|selected| - 1]) + pcrs[selected[|selected| - 1]]
  }

  ghost predicate InBank(pcrs: seq<Bytes>, selected: seq<nat>) {
    forall k :: 0 <= k < |selected| ==> selected[k] < |pcrs|
  }

  ghost predicate AllPcrSized(pcrs: seq<Bytes>) {
    forall i :: 0 <= i < |pcrs| ==> |pcrs[i]| == 32
  }

  /** The quote's signed digest is the hash of this bank's selected values. */
  ghost predicate Vouches(h: Hashes, message: Bytes, pcrs: seq<Bytes>) {
    && pcrs != [] && AllPcrSized(pcrs)
    && ParseQuote(message).Ok?
    && InBank(pcrs, ParseQuote(message).value.selected)
    && h.sha256(Concat(pcrs, ParseQuote(message).value.selected)) == ParseQuote(message).value.digest
  }

  /** The concatenation loop of VerifyTPMPCRs. */
  method ConcatSelected(pcrs: seq<Bytes>, selected: seq<nat>) returns (r: Option<Bytes>)
    ensures r.Some? <==> InBank(pcrs, selected)
    ensures r.Some? ==> r.value == Concat(pcrs, selected)
  {
    var concat: Bytes := [];
    for i := 0 to |selected|
      invariant InBank(pcrs, selected[..i]) && concat == Concat(pcrs, selected[..i])
    {
      if selected[i] >= |pcrs| {
        return None;
      }
      concat := concat + pcrs[selected[i]];
      assert selected[..i + 1][..i] == selected[..i];
    }
    assert selected[..|selected|] == selected;
    return Some(concat);
  }

  /** VerifyTPMPCRs. */
  method VerifyTpmPcrs(h: Hashes, message: Bytes, pcrs: seq<Bytes>) returns (error: Option<PcrError>)
    ensures error.None? <==> Vouches(h, message, pcrs)
    ensures error.Some? ==> error.value == if pcrs == [] then NoPcrs
                                           else if !AllPcrSized(pcrs) then BadSize
                                           else match ParseQuote(message)
                                             case Err(why) => BadQuote(why)
                                             case Ok(q) =>
                                               if InBank(pcrs, q.selected) then DigestMismatch else OutOfBank
  {
    if pcrs == [] {
      return Some(NoPcrs);
    }
    for i := 0 to |pcrs|
      invariant forall j :: 0 <= j < i ==> |pcrs[j]| == 32
    {
      if |pcrs[i]| != 32 {
        return Some(BadSize);
      }
    }
    var q := ParseQuoteInfo(message);
    if q.Err? {
      return Some(BadQuote(q.error));
    }
    var concat := ConcatSelected(pcrs, q.value.selected);
    if concat.None? {
      return Some(OutOfBank);
    }
    return if h.sha256(concat.value) == q.value.digest then None else Some(DigestMismatch);
  }

  lemma {:induction false} ConcatDecides(a: seq<Bytes>, b: seq<Bytes>, selected: seq<nat>)
    requires AllPcrSized(a) && AllPcrSized(b) && InBank(a, selected) && InBank(b, selected)
    requires Concat(a, selected) == Concat(b, selected)
    ensures forall i :: i in selected ==> a[i] == b[i]
  {
    if selected != [] {
      var front, last := selected[..|selected| - 1], selected[|selected| - 1];
      var ca, cb := Concat(a, front), Concat(b, front);
      assert |ca + a[last]| == |cb + b[last]|;
      assert ca == (ca + a[last])[..|ca|] && cb == (cb + b[last])[..|cb|];
      assert a[last] == (ca + a[last])[|ca|..] && b[last] == (cb + b[last])[|cb|..];
      ConcatDecides(a, b, front);
      assert selected == front + [last];
    }
  }

  /** Two inputs with one SHA-256 digest. */
  ghost predicate Collides(h: Hashes, x: Bytes, y: Bytes) {
    x != y && h.sha256(x) == h.sha256(y)
  }

  /** Two banks one quote vouches for agree on every signed register, or what was
      hashed for each is a collision. */
  lemma VouchedAgree(h: Hashes, message: Bytes, a: seq<Bytes>, b: seq<Bytes>)
    requires Vouches(h, message, a) && Vouches(h, message, b)
    ensures var selected := ParseQuote(message).value.selected;
            || Collides(h, Concat(a, selected), Concat(b, selected))
            || forall i :: i in selected ==> a[i] == b[i]
  {
    var selected := ParseQuote(message).value.selected;
    if Concat(a, selected) == Concat(b, selected) {
      ConcatDecides(a, b, selected);
    }
  }

  // --------------------------------------------------------------- init data

  /** The value PCR[8] holds after one extend of an init-data hash. */
  function InitDataExtend(h: Hashes, expected: Bytes): Bytes {
    h.sha256(Zeros(32) + expected)
  }

  /** CheckInitData: nil without an expectation, true when PCR[8] carries it. */
  function CheckInitData(h: Hashes, message: Bytes, pcrs: seq<Bytes>, expected: Option<Bytes>)
    : Result<Option<bool>, InitDataError> {
    match expected
    case None => Ok(None)
    case Some(hash) =>
      if |hash| != 32 then Err(BadWidth)
      else match ParseQuote(message)
        case Err(e) => Err(BadSelection(e))
        case Ok(q) =>
          if 8 !in q.selected then Err(NotSigned)
          else if |pcrs| <= 8 then Err(NotPresent)
          else if pcrs[8] != InitDataExtend(h, hash) then Err(InitDataMismatch)
          else Ok(Some(true))
  }

  /** Over every bank a quote vouches for, at most one init-data hash passes. */
  lemma InitDataUnique(h: Hashes, message: Bytes, a: seq<Bytes>, b: seq<Bytes>, x: Bytes, y: Bytes)
    requires Vouches(h, message, a) && Vouches(h, message, b)
    requires CheckInitData(h, message, a, Some(x)) == Ok(Some(true))
    requires CheckInitData(h, message, b, Some(y)) == Ok(Some(true))
    ensures var selected := ParseQuote(message).value.selected;
            || x == y
            || Collides(h, Concat(a, selected), Concat(b, selected))
            || Collides(h, Zeros(32) + x, Zeros(32) + y)
  {
    VouchedAgree(h, message, a, b);
    assert x == (Zeros(32) + x)[32..] && y == (Zeros(32) + y)[32..];
  }

  // -------------------------------------------------------------- publishing

  /** The claim name of register i: at least two digits. */
  function PcrKey(i: nat): Bytes {
    PCR + (if i < 10 then [0x30] + NatDigits(i) else NatDigits(i))
  }

  lemma PcrKeyInjective(i: nat, j: nat)
    ensures PcrKey(i) == PcrKey(j) ==> i == j
    ensures PcrKey(i) != NONCE
  {
    PcrKeyValue(i);
    PcrKeyValue(j);
    assert PcrKey(i)[0] == PCR[0];
  }

  lemma PcrKeyValue(i: nat)
    ensures NatValue(PcrKey(i)[3..]) == i
  {
    NatDigitsValue(i);
    if i < 10 {
      var s: Bytes := [0x30] + NatDigits(i);
      assert PcrKey(i)[3..] == s && s[..1] == [0x30] && s[..1][..0] == [];
      assert NatValue([0x30]) == 0;
    } else {
      assert PcrKey(i)[3..] == NatDigits(i);
    }
  }

  /** One claim for every selected register the bank holds. */
  function PcrEntries(pcrs: seq<Bytes>, selected: seq<nat>): map<Bytes, Bytes> {
    if selected == [] then map[]
    else
      var front, i := selected[..|selected| - 1], selected[|selected| - 1];
      if i < |pcrs| then PcrEntries(pcrs, front)[PcrKey(i) := HexEncode(pcrs[i])] else PcrEntries(pcrs, front)
  }

  lemma {:induction false} PcrEntriesExact(pcrs: seq<Bytes>, selected: seq<nat>, i: nat)
    ensures PcrKey(i) in PcrEntries(pcrs, selected) <==> i in selected && i < |pcrs|
    ensures i in selected && i < |pcrs| ==> PcrEntries(pcrs, selected)[PcrKey(i)] == HexEncode(pcrs[i])
  {
    if selected != [] {
      var front, last := selected[..|selected| - 1], selected[|selected| - 1];
      assert selected == front + [last];
      PcrEntriesExact(pcrs, front, i);
      PcrKeyInjective(i, last);
    }
  }

  lemma {:induction false} PcrEntriesAgree(a: seq<Bytes>, b: seq<Bytes>, selected: seq<nat>)
    requires InBank(a, selected) && InBank(b, selected)
    requires forall k :: 0 <= k < |selected| ==> a[selected[k]] == b[selected[k]]
    ensures PcrEntries(a, selected) == PcrEntries(b, selected)
  {
    if selected != [] {
      PcrEntriesAgree(a, b, selected[..|selected| - 1]);
    }
  }

  /** The "tpm" claims published for a bank beside a quote message. */
  function Published(message: Bytes, pcrs: seq<Bytes>): map<Bytes, Bytes> {
    var s := SignedSelection(message);
    var entries := PcrEntries(pcrs, if s.Ok? then s.value else []);
    match ExtractNonce(message)
    case Ok(nonce) => entries[NONCE := HexEncode(nonce)]
    case Err(_) => entries
  }

  /** r is b without its trailing null bytes. */
  ghost predicate StrippedOf(b: Bytes, r: Bytes) {
    r <= b && (r == [] || r[|r| - 1] != 0) && forall i :: |r| <= i < |b| ==> b[i] == 0
  }

  method StripTrailingNulls(b: Bytes) returns (r: Bytes)
    ensures StrippedOf(b, r)
  {
    var end := |b|;
    while end > 0 && b[end - 1] == 0
      invariant 0 <= end <= |b| && forall i :: end <= i < |b| ==> b[i] == 0
    {
      end := end - 1;
    }
    return b[..end];
  }

  /** The loop of ApplyTPMClaims. */
  method PublishSelected(pcrs: seq<Bytes>, selected: seq<nat>) returns (tpm: map<Bytes, Bytes>)
    ensures tpm == PcrEntries(pcrs, selected)
  {
    tpm := map[];
    for k := 0 to |selected|
      invariant tpm == PcrEntries(pcrs, selected[..k])
    {
      assert selected[..k + 1][..k] == selected[..k];
      var i := selected[k];
      if i < |pcrs| {
        tpm := tpm[PcrKey(i) := HexEncode(pcrs[i])];
      }
    }
    assert selected[..|selected|] == selected;
  }

  /** ApplyTPMClaims: overlays the vTPM data onto bare-platform claims. The second
      result is the nonce read as signed data, where the message carries one. */
  method ApplyTpmClaims(claims: Claims, pcrs: seq<Bytes>, message: Bytes) returns (r: Claims, signedData: Option<Bytes>)
    ensures r == claims.(tpm := Some(Published(message, pcrs)))
    ensures signedData.Some? <==> ExtractNonce(message).Ok?
    ensures signedData.Some? ==> StrippedOf(ExtractNonce(message).value, signedData.value)
  {
    var s := SignedSelection(message);
    var tpm := PublishSelected(pcrs, if s.Ok? then s.value else []);
    signedData := None;
    var nonce := ExtractNonce(message);
    if nonce.Ok? {
      tpm := tpm[NONCE := HexEncode(nonce.value)];
      var stripped := StripTrailingNulls(nonce.value);
      signedData := Some(stripped);
    }
    r := claims.(tpm := Some(tpm));
  }

  lemma SelectionMembers(message: Bytes)
    requires ParseQuote(message).Ok?
    ensures forall i :: i in SignedSelection(message).value <==> i in ParseQuote(message).value.selected
  {
    var a, b := SignedSelection(message).value, ParseQuote(message).value.selected;
    forall i ensures i in a <==> i in b {
      assert i in a <==> i in multiset(a);
      assert i in b <==> i in multiset(b);
    }
  }

  /** Claims.PCR. */
  function ReadPcr(claims: Claims, i: int): Result<Bytes, ()> {
    if i < 0 || i >= PCR_COUNT || claims.tpm.None? || PcrKey(i) !in claims.tpm.value then Err(())
    else ParseDigest(claims.tpm.value[PcrKey(i)], 32)
  }

  lemma PublishedEntry(message: Bytes, pcrs: seq<Bytes>, i: nat)
    requires ParseQuote(message).Ok?
    ensures PcrKey(i) in Published(message, pcrs) <==> i in ParseQuote(message).value.selected && i < |pcrs|
    ensures PcrKey(i) in Published(message, pcrs) ==> Published(message, pcrs)[PcrKey(i)] == HexEncode(pcrs[i])
  {
    SelectionMembers(message);
    PcrKeyInjective(i, i);
    PcrEntriesExact(pcrs, SignedSelection(message).value, i);
  }

  /** Published claims read back as exactly the signed registers of the bank. */
  lemma PublishedPcrs(h: Hashes, message: Bytes, pcrs: seq<Bytes>, claims: Claims, i: nat, v: Bytes)
    requires Vouches(h, message, pcrs) && claims.tpm == Some(Published(message, pcrs))
    ensures ReadPcr(claims, i) == Ok(v) <==>
            i < PCR_COUNT && i in ParseQuote(message).value.selected && v == pcrs[i]
  {
    PublishedEntry(message, pcrs, i);
    if i < |pcrs| {
      ParseDigestExact(HexEncode(pcrs[i]), 32, v);
      HexInjective(pcrs[i], v);
    }
  }

  /** So two banks that both verify against one quote publish the same claims,
      whatever the attester put in the rest of them. */
  lemma PublishedUnique(h: Hashes, message: Bytes, a: seq<Bytes>, b: seq<Bytes>)
    requires Vouches(h, message, a) && Vouches(h, message, b)
    ensures var selected := ParseQuote(message).value.selected;
            Published(message, a) == Published(message, b) || Collides(h, Concat(a, selected), Concat(b, selected))
  {
    var selected, signed := ParseQuote(message).value.selected, SignedSelection(message).value;
    VouchedAgree(h, message, a, b);
    if forall i :: i in selected ==> a[i] == b[i] {
      SelectionMembers(message);
      assert forall k :: 0 <= k < |signed| ==> signed[k] in selected;
      PcrEntriesAgree(a, b, signed);
    }
  }

  // -------------------------------------------------------------------- pins

  /** EnforcePCRs, over the quote message the evidence carries, if it carries one. */
  predicate EnforcePcrs(platform: Platform, message: Option<Bytes>, claims: Claims, pinned: map<int, Bytes>) {
    |pinned| == 0
    || (&& platform.HasVtpmQuote()
        && message.Some? && SignedSelection(message.value).Ok?
        && forall i :: i in pinned ==> i in SignedSelection(message.value).value && ReadPcr(claims, i) == Ok(pinned[i]))
  }

  /** A pin outside the quote's signed selection is refused whatever is claimed. */
  lemma UnsignedPinRefused(platform: Platform, message: Option<Bytes>, claims: Claims, pinned: map<int, Bytes>, i: int)
    requires i in pinned && EnforcePcrs(platform, message, claims, pinned)
    ensures platform.HasVtpmQuote() && message.Some? && ParseQuote(message.value).Ok?
    ensures 0 <= i < PCR_COUNT && i in ParseQuote(message.value).value.selected
  {
    assert |pinned| != 0;
    SelectionMembers(message.value);
  }

  /** A pin the claims satisfy is a value the signed digest covers: no other bank
      the quote vouches for holds anything else there. */
  lemma PinnedPcrIsSigned(h: Hashes, platform: Platform, message: Bytes, claims: Claims, pinned: map<int, Bytes>,
                          a: seq<Bytes>, b: seq<Bytes>, i: int)
    requires Vouches(h, message, a) && Vouches(h, message, b)
    requires claims.tpm == Some(Published(message, a))
    requires EnforcePcrs(platform, Some(message), claims, pinned) && i in pinned
    ensures var selected := ParseQuote(message).value.selected;
            && 0 <= i && i in selected
            && (b[i] == pinned[i] || Collides(h, Concat(a, selected), Concat(b, selected)))
  {
    assert |pinned| != 0;
    SelectionMembers(message);
    PublishedPcrs(h, message, a, claims, i, pinned[i]);
    VouchedAgree(h, message, a, b);
  }

  /** Pins some evidence could satisfy: 32-byte values of registers there are. */
  predicate PcrsPossible(pinned: map<int, Bytes>) {
    forall i :: i in pinned ==> 0 <= i < PCR_COUNT && |pinned[i]| == 32
  }

  lemma PcrsOnlyIfPossible(platform: Platform, message: Option<Bytes>, claims: Claims, pinned: map<int, Bytes>)
    requires EnforcePcrs(platform, message, claims, pinned)
    ensures PcrsPossible(pinned)
  {
    forall i | i in pinned ensures 0 <= i < PCR_COUNT && |pinned[i]| == 32 {
      UnsignedPinRefused(platform, message, claims, pinned, i);
    }
  }

  /** A quote that signs all 24 registers. */
  function AllPcrsQuote(): (a: Attest)
    ensures Encodable(a)
  {
    Attest(ATTEST_MAGIC, 0, [], [], Zeros(17), Zeros(8), [Selection(0, [0xFF, 0xFF, 0xFF])], [])
  }

  lemma FullBitmap(i: nat)
    requires i < PCR_COUNT
    ensures Selects([0xFF, 0xFF, 0xFF], i)
  {
    assert [0xFF, 0xFF, 0xFF][i / 8] == 0xFF;
  }

  lemma OneSelection(a: Attest, s: Selection, i: nat)
    requires Encodable(a) && a.selections == [s] && Selects(s.bitmap, i)
    ensures SignedSelection(Encode(a)).Ok? && i in SignedSelection(Encode(a)).value
  {
    QuoteRoundTrip(a, []);
    assert Encode(a) + [] == Encode(a);
    assert [s][1..] == [] && SelectedBits([s]) == Bits(s.bitmap) + SelectedBits([]);
    BitsExact(s.bitmap);
    SelectionMembers(Encode(a));
  }

  lemma AllPcrsSelected(i: nat)
    requires i < PCR_COUNT
    ensures SignedSelection(Encode(AllPcrsQuote())).Ok? && i in SignedSelection(Encode(AllPcrsQuote())).value
  {
    FullBitmap(i);
    OneSelection(AllPcrsQuote(), Selection(0, [0xFF, 0xFF, 0xFF]), i);
  }

  /** The bank that holds the pinned values. */
  function BankOf(pinned: map<int, Bytes>): (bank: seq<Bytes>)
    ensures |bank| == PCR_COUNT && forall i :: 0 <= i < PCR_COUNT && i in pinned ==> bank[i] == pinned[i]
  {
    seq(PCR_COUNT, i => if i in pinned then pinned[i] else Zeros(32))
  }

  lemma PossiblePcrs(pinned: map<int, Bytes>) returns (message: Bytes, claims: Claims)
    requires PcrsPossible(pinned)
    ensures EnforcePcrs(AzSnp, Some(message), claims, pinned)
    ensures claims.launchDigest == [] && claims.rtmrs == map[]
  {
    message := Encode(AllPcrsQuote());
    AllPcrsSelected(0);
    var selected := SignedSelection(message).value;
    claims := Claims([], [], map[], Some(PcrEntries(BankOf(pinned), selected)));
    forall i | i in pinned ensures i in selected && ReadPcr(claims, i) == Ok(pinned[i]) {
      AllPcrsSelected(i);
      PcrEntriesExact(BankOf(pinned), selected, i);
      ParseDigestExact(HexEncode(pinned[i]), 32, pinned[i]);
    }
  }

  // ------------------------------------------- what is hashed, read, published

  /** What the signed digest covers: the selected values in selection order, 32 bytes
      each. */
  lemma {:induction false} ConcatExact(pcrs: seq<Bytes>, selected: seq<nat>, k: nat)
    requires AllPcrSized(pcrs) && InBank(pcrs, selected)
    ensures |Concat(pcrs, selected)| == 32 * |selected|
    ensures k < |selected| ==> Concat(pcrs, selected)[32 * k..32 * (k + 1)] == pcrs[selected[k]]
  {
    if selected != [] {
      var n := |selected| - 1;
      ConcatExact(pcrs, selected[..n], k);
      var front, last := Concat(pcrs, selected[..n]), pcrs[selected[n]];
      if k < n {
        assert (front + last)[32 * k..32 * (k + 1)] == front[32 * k..32 * (k + 1)];
      } else if k == n {
        assert (front + last)[32 * n..32 * (n + 1)] == last;
      }
    }
  }

  /** joined is the bank's values at the selected indices, one after the other. */
  ghost predicate Joins(pcrs: seq<Bytes>, selected: seq<nat>, joined: Bytes) {
    && |joined| == 32 * |selected|
    && forall k :: 0 <= k < |selected| ==>
         selected[k] < |pcrs| && joined[32 * k..32 * (k + 1)] == pcrs[selected[k]]
  }

  /** A bank passes exactly when it is not empty, of 32-byte values, holds every
      register the quote selects, and those hash to the quote's digest. */
  lemma VouchesExact(h: Hashes, message: Bytes, pcrs: seq<Bytes>)
    ensures Vouches(h, message, pcrs) <==>
            && ParseQuote(message).Ok? && pcrs != [] && (forall i :: 0 <= i < |pcrs| ==> |pcrs[i]| == 32)
            && exists joined :: Joins(pcrs, ParseQuote(message).value.selected, joined)
                                && h.sha256(joined) == ParseQuote(message).value.digest
  {
    if ParseQuote(message).Ok? && AllPcrSized(pcrs) {
      var selected := ParseQuote(message).value.selected;
      if InBank(pcrs, selected) {
        ConcatExact(pcrs, selected, 0);
        forall k | 0 <= k < |selected|
          ensures Concat(pcrs, selected)[32 * k..32 * (k + 1)] == pcrs[selected[k]]
        {
          ConcatExact(pcrs, selected, k);
        }
        assert Joins(pcrs, selected, Concat(pcrs, selected));
      }
      forall joined | Joins(pcrs, selected, joined) ensures InBank(pcrs, selected) && Concat(pcrs, selected) == joined {
        ConcatIs(pcrs, selected, joined);
      }
    }
  }

  lemma {:induction false} ConcatIs(pcrs: seq<Bytes>, selected: seq<nat>, joined: Bytes)
    requires AllPcrSized(pcrs) && Joins(pcrs, selected, joined)
    ensures InBank(pcrs, selected) && Concat(pcrs, selected) == joined
    decreases |selected|
  {
    if selected != [] {
      var n := |selected| - 1;
      var front := joined[..32 * n];
      forall k | 0 <= k < n ensures front[32 * k..32 * (k + 1)] == pcrs[selected[..n][k]] {
        assert front[32 * k..32 * (k + 1)] == joined[32 * k..32 * (k + 1)];
      }
      ConcatIs(pcrs, selected[..n], front);
      assert joined == front + joined[32 * n..32 * (n + 1)];
    }
  }

  /** Init data passes exactly when the quote signs register 8, the bank holds it, and
      it is one extend of the hash from zero. */
  lemma InitDataExact(h: Hashes, message: Bytes, pcrs: seq<Bytes>, hash: Bytes)
    ensures CheckInitData(h, message, pcrs, Some(hash)) == Ok(Some(true)) <==>
            && |hash| == 32 && ParseQuote(message).Ok? && 8 in ParseQuote(message).value.selected
            && 8 < |pcrs| && pcrs[8] == h.sha256(Zeros(32) + hash)
    ensures CheckInitData(h, message, pcrs, Some(hash)) != Ok(Some(true)) ==>
              CheckInitData(h, message, pcrs, Some(hash)) ==
              if |hash| != 32 then Err(BadWidth)
              else match ParseQuote(message)
                case Err(why) => Err(BadSelection(why))
                case Ok(q) => if !exists k :: 0 <= k < |q.selected| && q.selected[k] == 8 then Err(NotSigned)
                              else if |pcrs| < 9 then Err(NotPresent) else Err(InitDataMismatch)
    ensures CheckInitData(h, message, pcrs, None) == Ok(None)
  {
  }

  lemma KeysSpelled(i: nat)
    requires i < 100
    ensures PcrKey(i) == Ascii("pcr") + [0x30 + i / 10, 0x30 + i % 10]
    ensures NONCE == Ascii("nonce")
  {
    assert PCR == Ascii("pcr");
    if i >= 10 {
      assert NatDigits(i) == NatDigits(i / 10) + [0x30 + i % 10] && NatDigits(i / 10) == [0x30 + i / 10];
    } else {
      assert NatDigits(i) == [0x30 + i];
    }
  }

  lemma OnePcrExact(claims: Claims, i: int, v: Bytes)
    ensures ReadPcr(claims, i) == Ok(v) <==>
            && 0 <= i < 24 && |v| == 32 && claims.tpm.Some? && PcrKey(i) in claims.tpm.value
            && claims.tpm.value[PcrKey(i)] == HexEncode(v)
  {
    if 0 <= i && claims.tpm.Some? && PcrKey(i) in claims.tpm.value {
      ParseDigestExact(claims.tpm.value[PcrKey(i)], 32, v);
    }
  }

  /** A register pinned to v holds: the quote signs it, and it is claimed under its
      name as the hex of these 32 bytes. */
  ghost predicate PcrHolds(message: Bytes, claims: Claims, i: int, v: Bytes) {
    && ParseQuote(message).Ok? && 0 <= i < 24 && i in ParseQuote(message).value.selected && |v| == 32
    && claims.tpm.Some? && PcrKey(i) in claims.tpm.value && claims.tpm.value[PcrKey(i)] == HexEncode(v)
  }

  /** PCR pins hold exactly when there are none, or the platform has a vTPM quote, one
      that can be read came along, and every pin holds of it. */
  lemma PcrsExact(platform: Platform, message: Option<Bytes>, claims: Claims, pinned: map<int, Bytes>)
    ensures EnforcePcrs(platform, message, claims, pinned) <==>
            || |pinned| == 0
            || (&& platform in {AzSnp, AzTdx} && message.Some? && ParseQuote(message.value).Ok?
                && forall i :: i in pinned ==> PcrHolds(message.value, claims, i, pinned[i]))
  {
    PlatformsExact(platform);
    if message.Some? && ParseQuote(message.value).Ok? {
      SelectionMembers(message.value);
      forall i | i in pinned
        ensures PcrHolds(message.value, claims, i, pinned[i]) <==>
                i in SignedSelection(message.value).value && ReadPcr(claims, i) == Ok(pinned[i])
      {
        OnePcrExact(claims, i, pinned[i]);
      }
    }
  }

  /** Nothing else is published: each claim is a signed register the bank holds, or the
      message's nonce. */
  lemma PublishedExact(message: Bytes, pcrs: seq<Bytes>, key: Bytes)
    ensures key in Published(message, pcrs) <==>
            || (key == NONCE && ExtractNonce(message).Ok?)
            || (ParseQuote(message).Ok?
                && exists i :: i in ParseQuote(message).value.selected && i < |pcrs| && key == PcrKey(i))
    ensures ExtractNonce(message).Ok? ==> Published(message, pcrs)[NONCE] == HexEncode(ExtractNonce(message).value)
  {
    var s := SignedSelection(message);
    if s.Ok? { SelectionMembers(message); }
    EntriesOnly(pcrs, if s.Ok? then s.value else [], key);
  }

  lemma {:induction false} EntriesOnly(pcrs: seq<Bytes>, selected: seq<nat>, key: Bytes)
    ensures key in PcrEntries(pcrs, selected) <==> exists i :: i in selected && i < |pcrs| && key == PcrKey(i)
    decreases |selected|
  {
    if selected != [] {
      var front, last := selected[..|selected| - 1], selected[|selected| - 1];
      assert selected == front + [last];
      EntriesOnly(pcrs, front, key);
      if i :| i in selected && i < |pcrs| && key == PcrKey(i) {
        assert i in front || i == last;
      }
      if i :| i in front && i < |pcrs| && key == PcrKey(i) {
        assert i in selected;
      }
      assert last in selected;
    }
  }
}
